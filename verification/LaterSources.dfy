/** What the sources of a run find that earlier ones have left: a header is read once for all of them, so whatever
    an #undef takes from it stays gone. */
module LaterSources {
  import opened Names
  import opened SymbolTable
  import opened Lookup
  import opened Graph
  import opened Directives
  import opened DirectiveTrees
  import opened StandardMeaning
  import opened TableMeaning

  // ---------------------------------------------------------------- what later sources find

  // All names undefined.
  function UndefinedEver(trace: seq<Event>): set<CString> {
    set e | e in trace && e.Undefined? :: e.name
  }

  // The command line has lost, of the names that it gave, those that were undefined.
  ghost predicate Booked(command: set<CString>, v: World<Ideal>) {
    v.aborted || v.env.command == command - UndefinedEver(v.trace)
  }

  lemma {:induction false} OneEventMore(trace: seq<Event>, e: Event)
    ensures UndefinedEver(trace + [e]) == if e.Undefined? then UndefinedEver(trace) + {e.name} else UndefinedEver(trace)
  {
    assert forall u :: u in trace + [e] <==> u in trace || u == e;
  }

  // An event that undefines nothing.
  lemma {:induction false} PlainEventKeepsBooked(command: set<CString>, v: World<Ideal>, e: Event, t: Ideal)
    requires Booked(command, v) && !e.Undefined? && t.command == v.env.command
    ensures Booked(command, Log(v, e, t))
  {
    OneEventMore(v.trace, e);
  }

  lemma {:induction false} EnterKeepsBooked(d: Given, command: set<CString>, v: World<Ideal>, file: nat, entry: nat)
    requires Booked(command, v) && Sound(v) && !v.aborted && entry < |v.entries|
    ensures Booked(command, Enter(Ideals(d), v, file, entry))
  {
    var m := Ideals(d);
    var u := Log(v, Included(file, entry), m.includedBy(file, entry, v.env));
    PlainEventKeepsBooked(command, v, Included(file, entry), m.includedBy(file, entry, v.env));
    PlainEventKeepsBooked(command, u, Opened(entry), u.env);
  }

  lemma {:induction false} MeaningKeepsBooked(d: Given, command: set<CString>, trees: string -> Items, v: World<Ideal>,
                                              file: nat, t: Items)
    requires Booked(command, v) && Sound(v) && file < |v.entries|
    ensures Booked(command, Meaning(Ideals(d), trees, v, file, t))
    decreases Unsearched(v), t, 0
  {
    match t {
      case Nil =>
      case Leaf(a, next) =>
        ActionKeepsBooked(d, command, trees, v, file, a);
        MeaningKeepsBooked(d, command, trees, ActionMeaning(Ideals(d), trees, v, file, a), file, next);
      case Group(test, body, rest, next) =>
        var m := Ideals(d);
        if Holds(m, v, test) {
          MeaningKeepsBooked(d, command, trees, v, file, body);
          MeaningKeepsBooked(d, command, trees, Meaning(m, trees, v, file, body), file, next);
        } else {
          RestKeepsBooked(d, command, trees, v, file, rest);
          MeaningKeepsBooked(d, command, trees, RestMeaning(m, trees, v, file, rest), file, next);
        }
    }
  }

  lemma {:induction false} RestKeepsBooked(d: Given, command: set<CString>, trees: string -> Items, v: World<Ideal>,
                                           file: nat, r: Rest)
    requires Booked(command, v) && Sound(v) && file < |v.entries|
    ensures Booked(command, RestMeaning(Ideals(d), trees, v, file, r))
    decreases Unsearched(v), r, 0
  {
    match r {
      case Closed(_) =>
      case Otherwise(_, body, _) => MeaningKeepsBooked(d, command, trees, v, file, body);
      case ElseIf(text, _, body, rest) =>
        if Holds(Ideals(d), v, Expression(text)) {
          MeaningKeepsBooked(d, command, trees, v, file, body);
        } else {
          RestKeepsBooked(d, command, trees, v, file, rest);
        }
    }
  }

  lemma {:induction false} ActionKeepsBooked(d: Given, command: set<CString>, trees: string -> Items, v: World<Ideal>,
                                             file: nat, a: Action)
    requires Booked(command, v) && Sound(v) && file < |v.entries|
    ensures Booked(command, ActionMeaning(Ideals(d), trees, v, file, a))
    decreases Unsearched(v), a, 0
  {
    var m := Ideals(d);
    match a {
      case Define(text) => PlainEventKeepsBooked(command, v, Defined(file, text), m.define(file, text, v.env));
      case Undef(name) => OneEventMore(v.trace, Undefined(name));
      case Include(text, values) =>
        var n := NameMeaning(m, v, file, text, values);
        var found := Find(m, n.0, file, n.1);
        if found.1.Some? {
          var entry := found.1.value;
          var u := Enter(m, found.0, file, entry);
          EnterKeepsBooked(d, command, found.0, file, entry);
          if entry !in v.searched {
            EnterShrinks(m, found.0, file, entry);
            var last := Meaning(m, trees, u, entry, trees(u.entries[entry].file));
            MeaningKeepsBooked(d, command, trees, u, entry, trees(u.entries[entry].file));
            PlainEventKeepsBooked(command, last, Finished(entry), m.finish(entry, last.env));
          }
        }
      case Ignored =>
    }
  }

  lemma {:induction false} SourcesKeepBooked(d: Given, command: set<CString>, trees: string -> Items, v: World<Ideal>,
                                             paths: seq<string>)
    requires Booked(command, v) && Sound(v)
    ensures Booked(command, SourcesMeaning(Ideals(d), trees, v, paths))
    decreases |paths|
  {
    if paths != [] {
      var u := NextSource(v, paths[0]);
      if !u.aborted {
        var last := Meaning(Ideals(d), trees, u, u.root, trees(paths[0]));
        MeaningKeepsBooked(d, command, trees, u, u.root, trees(paths[0]));
        PlainEventKeepsBooked(command, last, Finished(u.root), Ideals(d).finish(u.root, last.env));
      }
      SourcesKeepBooked(d, command, trees, SourceMeaning(Ideals(d), trees, v, paths[0]), paths[1..]);
    }
  }

  // Nothing is gone of what was seen from a file at its end.
  lemma {:induction false} AsLeftExactlyWhen(d: Given, g: Snapshot, t: Ideal, f: IncList)
    requires Remembers(d, g, t) && AllGone(g, t) && f in t.left && f in g
    ensures f in t.gone
    ensures (forall z: CString :: Visible(g, f, z) <==> z in t.left[f]) <==> t.left[f] !! t.gone[f]
  {
    if t.left[f] !! t.gone[f] {
      forall z: CString ensures Visible(g, f, z) <==> z in t.left[f] { }
    } else {
      var z :| z in t.left[f] && z in t.gone[f];
      assert Undone(t, f, z);
    }
  }

  /** What later sources find: a header that has been read shows nothing but what was seen from it at its end, and
      of that all that no #undef recorded since has named, in whatever source. If every #undef was clean, it is
      found as its reading left it if and only if none of them names anything that was seen from it then. */
  lemma {:induction false} NextSourceFindsHeader(d: Given, strict: bool, trees: string -> Items, g: Snapshot,
                                                 paths: seq<string>, i: nat)
    requires WellNested(Tables(d), trees) && Untouched(d, g) && i < |d.files|
    requires CalmSources(d, strict, trees, World(0, [], {}, {}, g, [], false), {}, paths)
    ensures var r := ReadSources(Tables(d), World(0, [], {}, {}, g, [], false), paths);
      var t := SourcesMeaning(Ideals(d), trees, World(0, [], {}, {}, Blank(d, g), [], false), paths).env;
      var f := d.files[i];
      !r.aborted && f in r.env && r.env[f].finished ==>
        && f in t.left
        && (forall z: CString :: Visible(r.env, f, z) ==> z in t.left[f])
        && (forall z: CString :: z in t.left[f] && z !in UndefinedSince(r.trace, i) ==> Visible(r.env, f, z))
        && (strict ==>
              ((forall z: CString :: Visible(r.env, f, z) <==> z in t.left[f]) <==>
                 t.left[f] !! UndefinedSince(r.trace, i)))
  {
    var w, v := World(0, [], {}, {}, g, [], false), World(0, [], {}, {}, Blank(d, g), [], false);
    var read := RunsInStep(d, strict, trees, g, paths);
    var r, e := ReadSources(Tables(d), w, paths), SourcesMeaning(Ideals(d), trees, v, paths);
    var f := d.files[i];
    if !r.aborted && f in r.env && r.env[f].finished {
      if strict { AsLeftExactlyWhen(d, r.env, e.env, f); }
    }
  }

  /** And they find the command line as it was given, less the names that any #undef recorded. */
  lemma {:induction false} NextSourceFindsCommandLine(d: Given, strict: bool, trees: string -> Items, g: Snapshot,
                                                      paths: seq<string>)
    requires WellNested(Tables(d), trees) && Untouched(d, g)
    requires CalmSources(d, strict, trees, World(0, [], {}, {}, g, [], false), {}, paths)
    ensures var r := ReadSources(Tables(d), World(0, [], {}, {}, g, [], false), paths);
      !r.aborted ==>
        d.main in r.env && NamesOf(r.env[d.main].defs) == NamesOf(g[d.main].defs) - UndefinedEver(r.trace)
  {
    var w, v := World(0, [], {}, {}, g, [], false), World(0, [], {}, {}, Blank(d, g), [], false);
    var read := RunsInStep(d, strict, trees, g, paths);
    SourcesKeepBooked(d, NamesOf(g[d.main].defs), trees, v, paths);
    var r, e := ReadSources(Tables(d), w, paths), SourcesMeaning(Ideals(d), trees, v, paths);
  }

  // ---------------------------------------------------------------- including such a header

  /** A header that has been read before is included rightly, the source then seeing what it should, if and only if
      each name undefined since that reading which the header still shows is one the source should see anyway. */
  lemma {:induction false} IncludeIsRightExactlyWhen(d: Given, sources: set<nat>, p: Moment, root: nat, file: nat,
                                                     entry: nat)
    requires Coupled(d, sources, p) && AtFile(p, root, file) && entry < |d.files|
    requires d.files[entry] !in p.s[d.files[file]].list
    ensures var h, t, x := Link(d, p.s, file, entry), IdealLink(d, p.t, file, entry), d.files[root];
      (forall z: CString :: Visible(h, x, z) <==> Sees(t, x, z)) <==>
        (forall z: CString :: z in UndefinedSince(p.trace, entry) && Visible(p.s, d.files[entry], z) ==> Sees(t, x, z))
  {
    var h, t, x, c := Link(d, p.s, file, entry), IdealLink(d, p.t, file, entry), d.files[root], d.files[entry];
    forall z: CString
      ensures Visible(h, x, z) <==> Sees(p.t, x, z) || Visible(p.s, c, z)
      ensures Sees(t, x, z) <==> Sees(p.t, x, z) || Sees(p.t, c, z)
      ensures Visible(p.s, c, z) ==> Sees(p.t, c, z) || z in UndefinedSince(p.trace, entry)
      ensures Sees(p.t, c, z) ==> Visible(p.s, c, z)
    {
      SourceAfterInclude(d, sources, p, root, file, entry, z);
    }
  }

  lemma {:induction false} SourceAfterInclude(d: Given, sources: set<nat>, p: Moment, root: nat, file: nat, entry: nat,
                                              z: CString)
    requires Coupled(d, sources, p) && AtFile(p, root, file) && entry < |d.files|
    requires d.files[entry] !in p.s[d.files[file]].list
    ensures var h, t, x, c := Link(d, p.s, file, entry), IdealLink(d, p.t, file, entry), d.files[root], d.files[entry];
      && (Visible(h, x, z) <==> Sees(p.t, x, z) || Visible(p.s, c, z))
      && (Sees(t, x, z) <==> Sees(p.t, x, z) || Sees(p.t, c, z))
      && (Visible(p.s, c, z) ==> Sees(p.t, c, z) || z in UndefinedSince(p.trace, entry))
      && (Sees(p.t, c, z) ==> Visible(p.s, c, z))
  {
    var x, f := d.files[root], d.files[file];
    ReachesReading(d, p.reading, p.s, |p.reading| - 1);
    LinkShows(d, p.s, file, entry, x, z);
    IdealLinkShows(d, p.t, file, entry, x, z);
    ReachesUnreadAlike(d, sources, p.reading, p.searched, p.s, p.t, x, f);
    assert x !in p.t.gone;
  }
}
