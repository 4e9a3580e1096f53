/** The directive machine over the program's own tables: tests are lookups that fold tables as they go,
    #undef is the deleting loop. When, source after source, that records what section 6.10.1 of
    ISO/IEC 9899:1999 says. */
module TableMeaning {
  import opened Names
  import opened SymbolTable
  import opened Graph
  import opened Lookup
  import opened Visibility
  import opened MissedLookups
  import U = Undefinition
  import C = CleanUndefs
  import H = HitLookups
  import opened DrainedSources
  import opened Directives
  import opened DirectiveTrees
  import opened StandardMeaning

  // ---------------------------------------------------------------- the program's environment

  // What the tables do not decide: maininclist and the slots of inclist; the entry that a #define makes;
  // the names that an #if expression asks for, in order, and what it makes of the answers; the files.
  datatype Given = Given(
    main: IncList,
    files: seq<IncList>,
    entry: (nat, string) -> Symtab,
    asked: string -> seq<CString>,
    verdict: (string, seq<bool>) -> bool,
    paths: (string, string, bool) -> seq<string>,
    present: string -> bool,
    contents: string -> Lines)

  ghost predicate Ready(d: Given, g: Snapshot) {
    && WellFormed(g) && Checked(g) == {} && d.main in g && |d.files| == MAXFILES
    && (forall i :: 0 <= i < |d.files| ==> d.files[i] in g && d.files[i] != d.main)
    && (forall i, j :: 0 <= i < j < |d.files| ==> d.files[i] != d.files[j])
  }

  function NamesAsked(d: Given, q: Test): seq<CString> {
    match q
    case Expression(text) => d.asked(text)
    case Present(name) => [name]
    case Absent(name) => [name]
  }

  function Verdict(d: Given, q: Test, answers: seq<bool>): bool {
    match q
    case Expression(text) => d.verdict(text, answers)
    case Present(_) => answers == [true]
    case Absent(_) => answers == [false]
  }

  // isdefined, seen from the source.
  ghost function LookUp(d: Given, g: Snapshot, root: nat, name: CString): (bool, Snapshot) {
    if Ready(d, g) && root < |d.files| then
      var r := U.IsDefined(g, d.main, d.files[root], name);
      (r.hit.Some?, r.g)
    else (false, g)
  }

  ghost function LookUps(d: Given, g: Snapshot, root: nat, names: seq<CString>): (seq<bool>, Snapshot) {
    if names == [] then ([], g)
    else
      var first := LookUp(d, g, root, names[0]);
      var rest := LookUps(d, first.1, root, names[1..]);
      ([first.0] + rest.0, rest.1)
  }

  ghost function Decide(d: Given, g: Snapshot, root: nat, q: Test): (bool, Snapshot) {
    var r := LookUps(d, g, root, NamesAsked(d, q));
    (Verdict(d, q, r.0), r.1)
  }

  ghost function Record(d: Given, g: Snapshot, file: nat, text: string): Snapshot {
    if Ready(d, g) && file < |d.files| then Recorded(g, d.files[file], d.entry(file, text)) else g
  }

  ghost function Remove(d: Given, g: Snapshot, root: nat, name: CString): Snapshot {
    if Ready(d, g) && root < |d.files| then U.Undefined(g, d.main, d.files[root], name) else g
  }

  ghost function Link(d: Given, g: Snapshot, file: nat, entry: nat): Snapshot {
    if Ready(d, g) && file < |d.files| && entry < |d.files| then Linked(g, d.files[file], d.files[entry]) else g
  }

  ghost function Close(d: Given, g: Snapshot, file: nat): Snapshot {
    if Ready(d, g) && file < |d.files| then Completed(g, d.files[file]) else g
  }

  ghost function Tables(d: Given): Kit<Snapshot> {
    Kit((root, q, g) => Decide(d, g, root, q), (file, text, g) => Record(d, g, file, text),
        (root, name, g) => Remove(d, g, root, name), (file, entry, g) => Link(d, g, file, entry),
        (file, g) => Close(d, g, file), d.paths, d.present, d.contents)
  }

  // ---------------------------------------------------------------- the environment of the meaning

  // The names on the command line, the names that each file defines, and the files it includes; and, for
  // the command line and every file that has been read, the names seen from it when it came to its end,
  // and those undefined since. Tests change nothing, and an #undef removes the name from everywhere.
  datatype Ideal = Ideal(command: set<CString>, defs: map<IncList, set<CString>>, includes: map<IncList, set<IncList>>,
                         left: map<IncList, set<CString>>, gone: map<IncList, set<CString>>)

  // The environments of the program and of the meaning at one moment.
  type Moment = Stage<Snapshot, Ideal>

  ghost predicate Sees(t: Ideal, f: IncList, name: CString) {
    exists u :: u in t.defs && Reach(t.includes, {}, f, u) && name in t.defs[u]
  }

  ghost function Seen(t: Ideal, f: IncList): set<CString> {
    set u, z | u in t.defs && Reach(t.includes, {}, f, u) && z in t.defs[u] :: z
  }

  ghost predicate Known(d: Given, t: Ideal, root: nat, name: CString) {
    name in t.command || (root < |d.files| && Sees(t, d.files[root], name))
  }

  ghost function Answers(d: Given, t: Ideal, root: nat, names: seq<CString>): seq<bool> {
    if names == [] then [] else [Known(d, t, root, names[0])] + Answers(d, t, root, names[1..])
  }

  ghost function IdealRecord(d: Given, t: Ideal, file: nat, text: string): Ideal {
    if file < |d.files| && d.files[file] in t.defs
    then t.(defs := t.defs[d.files[file] := t.defs[d.files[file]] + {d.entry(file, text).s_name}])
    else t
  }

  ghost function IdealRemove(t: Ideal, name: CString): Ideal {
    Ideal(t.command - {name}, map f | f in t.defs :: t.defs[f] - {name}, t.includes,
          t.left, map f | f in t.gone :: t.gone[f] + {name})
  }

  ghost function IdealLink(d: Given, t: Ideal, file: nat, entry: nat): Ideal {
    if file < |d.files| && entry < |d.files| && d.files[file] in t.includes
    then t.(includes := t.includes[d.files[file] := t.includes[d.files[file]] + {d.files[entry]}])
    else t
  }

  ghost function IdealClose(d: Given, t: Ideal, file: nat): Ideal {
    if file < |d.files|
    then t.(left := t.left[d.files[file] := Seen(t, d.files[file])], gone := t.gone[d.files[file] := {}])
    else t
  }

  ghost function Ideals(d: Given): Kit<Ideal> {
    Kit((root, q, t) => (Verdict(d, q, Answers(d, t, root, NamesAsked(d, q))), t),
        (file, text, t) => IdealRecord(d, t, file, text), (_, name, t) => IdealRemove(t, name),
        (file, entry, t) => IdealLink(d, t, file, entry), (file, t) => IdealClose(d, t, file),
        d.paths, d.present, d.contents)
  }

  // ---------------------------------------------------------------- what has been undefined

  // The names undefined after the i-th file came to its end, read off the record.
  function UndefinedSince(trace: seq<Event>, i: nat): set<CString> {
    if trace == [] || trace[|trace| - 1] == Finished(i) then {}
    else
      var before := UndefinedSince(trace[..|trace| - 1], i);
      if trace[|trace| - 1].Undefined? then before + {trace[|trace| - 1].name} else before
  }

  lemma {:induction false} OneEventLater(trace: seq<Event>, e: Event, i: nat)
    ensures UndefinedSince(trace + [e], i) ==
      if e == Finished(i) then {}
      else if e.Undefined? then UndefinedSince(trace, i) + {e.name} else UndefinedSince(trace, i)
  {
    assert (trace + [e])[..|trace|] == trace;
  }

  // The names gone from a file are those undefined since.
  ghost predicate Booked(d: Given, trace: seq<Event>, t: Ideal) {
    forall i: nat :: i < |d.files| && d.files[i] in t.gone ==> t.gone[d.files[i]] == UndefinedSince(trace, i)
  }

  // An event that neither undefines nor finishes anything.
  lemma {:induction false} PlainEventKeepsBooked(d: Given, trace: seq<Event>, t: Ideal, e: Event, next: Ideal)
    requires Booked(d, trace, t) && !e.Undefined? && !e.Finished? && next.gone == t.gone
    ensures Booked(d, trace + [e], next)
  {
    forall i: nat ensures UndefinedSince(trace + [e], i) == UndefinedSince(trace, i) { OneEventLater(trace, e, i); }
  }

  lemma {:induction false} UndefKeepsBooked(d: Given, trace: seq<Event>, t: Ideal, name: CString)
    requires Booked(d, trace, t)
    ensures Booked(d, trace + [Undefined(name)], IdealRemove(t, name))
  {
    forall i: nat | i < |d.files| && d.files[i] in t.gone
      ensures IdealRemove(t, name).gone[d.files[i]] == UndefinedSince(trace + [Undefined(name)], i)
    {
      OneEventLater(trace, Undefined(name), i);
    }
  }

  lemma {:induction false} FinishKeepsBooked(d: Given, trace: seq<Event>, t: Ideal, file: nat)
    requires Booked(d, trace, t) && forall i, j :: 0 <= i < j < |d.files| ==> d.files[i] != d.files[j]
    ensures Booked(d, trace + [Finished(file)], IdealClose(d, t, file))
  {
    var next := IdealClose(d, t, file);
    forall i: nat | i < |d.files| && d.files[i] in next.gone
      ensures next.gone[d.files[i]] == UndefinedSince(trace + [Finished(file)], i)
    {
      OneEventLater(trace, Finished(file), i);
    }
  }

  // ---------------------------------------------------------------- what belongs together

  // c is read while f, which includes it, is being read.
  ghost predicate ReadFrom(d: Given, reading: seq<nat>, f: IncList, c: IncList) {
    exists i :: 0 <= i < |reading| - 1 && reading[i] < |d.files| && reading[i + 1] < |d.files|
      && f == d.files[reading[i]] && c == d.files[reading[i + 1]]
  }

  // The files being read, each for the first time.
  ghost predicate Stacked(d: Given, reading: seq<nat>, g: Snapshot)
    requires Ready(d, g)
  {
    && (forall i :: 0 <= i < |reading| ==> reading[i] < |d.files| && !g[d.files[reading[i]]].finished)
    && (forall i, j :: 0 <= i < j < |reading| ==> reading[i] != reading[j])
  }

  // An included file has been read to its end, or is being read for the file that includes it; and only
  // in the first case may it have been merged.
  ghost predicate ChildrenRead(d: Given, reading: seq<nat>, g: Snapshot)
    requires Ready(d, g)
  {
    && (forall f, c :: f in g && c in g[f].list ==>
          c in g && c != d.main && (g[c].finished || ReadFrom(d, reading, f, c)))
    && (forall f, j: nat :: f in g && j < |g[f].list| && g[f].merged[j] ==> g[g[f].list[j]].finished)
  }

  // Each file being read is among the includes of the one it is read for.
  ghost predicate Chained(d: Given, reading: seq<nat>, g: Snapshot)
    requires Ready(d, g)
  {
    forall i :: 0 <= i < |reading| - 1 && reading[i] < |d.files| && reading[i + 1] < |d.files| ==>
      d.files[reading[i + 1]] in g[d.files[reading[i]]].list
  }

  // A slot that has not been opened yet includes nothing.
  ghost predicate FreshEmpty(d: Given, reading: seq<nat>, g: Snapshot)
    requires Ready(d, g)
  {
    forall i: nat :: i < |d.files| && i !in reading && !g[d.files[i]].finished ==> g[d.files[i]].list == []
  }

  // The slots of the sources read so far, the present one among them, are not flagged SEARCHED. All other
  // files that are finished or being read are, and no others.
  ghost predicate Flagged(d: Given, sources: set<nat>, reading: seq<nat>, searched: set<nat>, g: Snapshot)
    requires Ready(d, g)
  {
    && (reading != [] ==> reading[0] in sources)
    && (forall i :: 0 < i < |reading| ==> reading[i] in searched)
    && (forall i: nat :: i < |d.files| && g[d.files[i]].finished ==> i in searched || i in sources)
    && (forall i: nat :: i < |d.files| && i in searched ==> g[d.files[i]].finished || i in reading)
  }

  // The files and edges: everything that lookups and definitions leave alone.
  ghost predicate Arranged(d: Given, sources: set<nat>, reading: seq<nat>, searched: set<nat>, g: Snapshot) {
    && Ready(d, g) && g[d.main].list == []
    && Stacked(d, reading, g) && Chained(d, reading, g) && ChildrenRead(d, reading, g) && FreshEmpty(d, reading, g)
    && Flagged(d, sources, reading, searched, g)
  }

  ghost function ChildrenOf(v: FileView): set<IncList> {
    set c | c in v.list
  }

  ghost predicate NoCycle(e: map<IncList, set<IncList>>) {
    forall f, c :: f in e && c in e[f] ==> !Reach(e, {}, c, f)
  }

  // Undefined since f came to its end.
  ghost predicate Undone(t: Ideal, f: IncList, name: CString) {
    f in t.gone && name in t.gone[f]
  }

  // The same names visible; but a file that has been read may still show names that have been undefined
  // since.
  ghost predicate ViewsMatch(g: Snapshot, t: Ideal) {
    && (forall f, name: CString :: f in g && Sees(t, f, name) ==> Visible(g, f, name))
    && forall f, name: CString :: f in g && Visible(g, f, name) ==> Sees(t, f, name) || Undone(t, f, name)
  }

  // The same files, edges and command line, no cycle, and views that match.
  ghost predicate Matches(d: Given, g: Snapshot, t: Ideal)
    requires d.main in g
  {
    && t.defs.Keys == g.Keys && t.includes == (map f | f in g :: ChildrenOf(g[f])) && NoCycle(t.includes)
    && t.command == NamesOf(g[d.main].defs) && ViewsMatch(g, t)
  }

  // What each file that has been read shows now is what it showed at its end, less at most what has been
  // undefined.
  ghost predicate Remembers(d: Given, g: Snapshot, t: Ideal) {
    && t.left.Keys == t.gone.Keys
    && t.left.Keys == (set f | f in g && (f == d.main || g[f].finished))
    && (forall f, z: CString :: f in t.left && Visible(g, f, z) ==> z in t.left[f])
    && forall f, z: CString :: f in t.left && z in t.left[f] && z !in t.gone[f] ==> Visible(g, f, z)
  }

  // A slot that has not been opened yet defines nothing.
  ghost predicate FreshBlank(d: Given, reading: seq<nat>, g: Snapshot, t: Ideal)
    requires Ready(d, g)
  {
    forall i: nat :: i < |d.files| && i !in reading && !g[d.files[i]].finished && d.files[i] in t.defs ==>
      t.defs[d.files[i]] == {}
  }

  // The command line and the slots are all the files there are.
  ghost function Records(d: Given): set<IncList> {
    {d.main} + set i: nat | i < |d.files| :: d.files[i]
  }

  ghost predicate Coupled(d: Given, sources: set<nat>, p: Moment) {
    && p.s.Keys == Records(d)
    && Arranged(d, sources, p.reading, p.searched, p.s) && Matches(d, p.s, p.t) && Remembers(d, p.s, p.t)
    && FreshBlank(d, p.reading, p.s, p.t) && Booked(d, p.trace, p.t)
  }

  // No file shows a name that has been undefined since.
  ghost predicate AllGone(g: Snapshot, t: Ideal) {
    forall f, z: CString :: f in g && Undone(t, f, z) ==> !Visible(g, f, z)
  }

  // With strict, moreover, every #undef has reached all files.
  ghost predicate Together(d: Given, sources: set<nat>, strict: bool, p: Moment) {
    Coupled(d, sources, p) && (strict ==> AllGone(p.s, p.t))
  }

  // A test is quiet if its lookups hide no name from any file.
  ghost predicate Quiet(d: Given, root: nat, q: Test, g: Snapshot) {
    KeepsVisible(g, LookUps(d, g, root, NamesAsked(d, q)).1)
  }

  // An #undef is clean if each of its lookups hides no other name, and none leaves a copy behind.
  ghost predicate CleanUndef(d: Given, root: nat, name: CString, g: Snapshot) {
    Ready(d, g) && root < |d.files| && C.Clean(g, d.main, d.files[root], name)
  }

  // It is tidy if each of its lookups hides no other name.
  ghost predicate TidyUndef(d: Given, root: nat, name: CString, g: Snapshot) {
    Ready(d, g) && root < |d.files| && C.Tidy(g, d.main, d.files[root], name)
  }

  // A header shows no name that has been undefined since it was read.
  ghost predicate UpToDate(d: Given, trace: seq<Event>, entry: nat, g: Snapshot) {
    entry < |d.files| ==> forall z: CString :: z in UndefinedSince(trace, entry) ==> !Visible(g, d.files[entry], z)
  }

  // The manners of a run: tests are quiet; an #undef is tidy, and with strict clean; what is included is
  // neither being read nor a source, and up to date.
  ghost function TableManners(d: Given, sources: set<nat>, strict: bool): Manners<Snapshot> {
    Manners((root, q, g) => Quiet(d, root, q, g),
            (root, name, g) => if strict then CleanUndef(d, root, name, g) else TidyUndef(d, root, name, g),
            (reading, entry, trace, g) =>
              entry !in reading && entry !in sources && (strict || UpToDate(d, trace, entry, g)))
  }

  // ---------------------------------------------------------------- lookups

  // What lookups and deletions keep of the files and edges.
  ghost predicate Settles(g: Snapshot, h: Snapshot) {
    && WellFormed(g) && WellFormed(h) && SameShape(g, h) && Checked(h) == Checked(g)
    && forall f :: f in g ==> |h[f].merged| == |g[f].merged| && U.RetiresRead(g, h, f)
  }

  lemma {:induction false} SettlesTwice(g: Snapshot, h: Snapshot, k: Snapshot)
    requires Settles(g, h) && Settles(h, k)
    ensures Settles(g, k)
  {
    SameShapeTransitive(g, h, k);
    forall f | f in g ensures |k[f].merged| == |g[f].merged| && U.RetiresRead(g, k, f) {
      assert Evolves(g[f], h[f]) && Evolves(h[f], k[f]);
      forall j: nat | j < |g[f].list| && k[f].merged[j] && !g[f].merged[j] ensures g[g[f].list[j]].finished {
        assert Evolves(g[g[f].list[j]], h[g[f].list[j]]);
      }
    }
  }

  lemma {:induction false} SettledStaysArranged(d: Given, sources: set<nat>, reading: seq<nat>, searched: set<nat>,
                                                g: Snapshot, h: Snapshot)
    requires Arranged(d, sources, reading, searched, g) && Settles(g, h)
    ensures Arranged(d, sources, reading, searched, h)
    ensures (map f | f in h :: ChildrenOf(h[f])) == (map f | f in g :: ChildrenOf(g[f]))
  {
    forall f | f in g ensures h[f].list == g[f].list && h[f].finished == g[f].finished {
      assert Evolves(g[f], h[f]);
    }
  }

  // One lookup: the answer, and what it keeps.
  lemma {:induction false} LookUpSettles(d: Given, g: Snapshot, root: nat, name: CString)
    requires Ready(d, g) && g[d.main].list == [] && root < |d.files|
    ensures var r := LookUp(d, g, root, name);
      && Settles(g, r.1) && InventsNothing(g, r.1) && r.1[d.main].defs == g[d.main].defs
      && (r.0 <==> Defines(g[d.main], name) || Visible(g, d.files[root], name))
  {
    var x := d.files[root];
    if !Defines(g[d.main], name) {
      LookupFindsWhatIsVisible(g, x, name);
      LookupInvents(g, x, name);
      var k := FDefined(g, x, name).g;
      forall f | f in g ensures |k[f].merged| == |g[f].merged| && U.RetiresRead(g, k, f) {
        U.NoFoldNoChange(g, x, name, f);
      }
      U.NoFoldNoChange(g, x, name, d.main);
      assert Evolves(g[d.main], k[d.main]);
    }
  }

  lemma {:induction false} SettledStaysReady(d: Given, g: Snapshot, h: Snapshot)
    requires Ready(d, g) && g[d.main].list == [] && Settles(g, h)
    ensures Ready(d, h) && h[d.main].list == []
  {
    assert Evolves(g[d.main], h[d.main]);
  }

  lemma {:induction false} SettlesItself(g: Snapshot)
    requires WellFormed(g)
    ensures Settles(g, g)
  {
  }

  ghost predicate Answered(d: Given, g: Snapshot, root: nat, names: seq<CString>, answers: seq<bool>)
    requires d.main in g && root < |d.files|
  {
    |answers| == |names| && forall i :: 0 <= i < |names| ==>
      (answers[i] <==> Defines(g[d.main], names[i]) || Visible(g, d.files[root], names[i]))
  }

  // All the lookups of a test: if in the end nothing is hidden, then nothing was on the way, and the
  // answers are those of the environment before the test.
  lemma {:induction false} LookUpsSettle(d: Given, g: Snapshot, root: nat, names: seq<CString>)
    requires Ready(d, g) && g[d.main].list == [] && root < |d.files|
    ensures var r := LookUps(d, g, root, names);
      && Settles(g, r.1) && InventsNothing(g, r.1) && r.1[d.main].defs == g[d.main].defs
      && (KeepsVisible(g, r.1) ==> Answered(d, g, root, names, r.0))
    decreases |names|
  {
    if names == [] {
      SettlesItself(g);
    } else {
      var first := LookUp(d, g, root, names[0]);
      var rest := LookUps(d, first.1, root, names[1..]);
      LookUpSettles(d, g, root, names[0]);
      SettledStaysReady(d, g, first.1);
      LookUpsSettle(d, first.1, root, names[1..]);
      SettlesTwice(g, first.1, rest.1);
      Squeeze(g, first.1, rest.1);
      if KeepsVisible(g, rest.1) { FirstAnswered(d, g, root, names, first, rest.0); }
    }
  }

  lemma {:induction false} FirstAnswered(d: Given, g: Snapshot, root: nat, names: seq<CString>, first: (bool, Snapshot),
                                         answers: seq<bool>)
    requires d.main in g && root < |d.files| && d.files[root] in g && names != []
    requires first.1.Keys == g.Keys && first.1[d.main].defs == g[d.main].defs
    requires KeepsVisible(g, first.1) && InventsNothing(g, first.1)
    requires first.0 <==> Defines(g[d.main], names[0]) || Visible(g, d.files[root], names[0])
    requires Answered(d, first.1, root, names[1..], answers)
    ensures Answered(d, g, root, names, [first.0] + answers)
  {
    forall i | 0 < i < |names|
      ensures ([first.0] + answers)[i] <==> Defines(g[d.main], names[i]) || Visible(g, d.files[root], names[i])
    {
      assert names[i] == names[1..][i - 1];
    }
  }

  lemma {:induction false} IdealAnswered(d: Given, g: Snapshot, t: Ideal, root: nat, names: seq<CString>)
    requires d.main in g && Matches(d, g, t) && root < |d.files| && d.files[root] in g && d.files[root] !in t.gone
    ensures Answered(d, g, root, names, Answers(d, t, root, names))
    decreases |names|
  {
    if names != [] {
      IdealAnswered(d, g, t, root, names[1..]);
      forall i | 0 < i < |names| ensures Answers(d, t, root, names)[i] == Answers(d, t, root, names[1..])[i - 1] {
      }
      assert forall i :: 0 < i < |names| ==> names[i] == names[1..][i - 1];
    }
  }

  lemma {:induction false} TestKeepsCoupled(d: Given, sources: set<nat>, strict: bool, p: Moment, root: nat, q: Test)
    requires Together(d, sources, strict, p) && p.reading != [] && p.reading[0] == root && Quiet(d, root, q, p.s)
    ensures Decide(d, p.s, root, q).0 == Verdict(d, q, Answers(d, p.t, root, NamesAsked(d, q)))
    ensures Together(d, sources, strict, With(p, Decide(d, p.s, root, q).1, p.t))
  {
    var r := LookUps(d, p.s, root, NamesAsked(d, q));
    TestAnswers(d, sources, p, root, NamesAsked(d, q));
    LookUpsSettle(d, p.s, root, NamesAsked(d, q));
    SettledStaysArranged(d, sources, p.reading, p.searched, p.s, r.1);
    SettledMatches(d, p.s, r.1, p.t);
    SettledRemembers(d, p.reading, p.s, r.1, p.t);
  }

  lemma {:induction false} TestAnswers(d: Given, sources: set<nat>, p: Moment, root: nat, names: seq<CString>)
    requires Coupled(d, sources, p) && p.reading != [] && p.reading[0] == root
    requires KeepsVisible(p.s, LookUps(d, p.s, root, names).1)
    ensures LookUps(d, p.s, root, names).0 == Answers(d, p.t, root, names)
  {
    LookUpsSettle(d, p.s, root, names);
    IdealAnswered(d, p.s, p.t, root, names);
  }

  lemma {:induction false} AsksForOne(d: Given, g: Snapshot, root: nat, name: CString)
    ensures var r := LookUp(d, g, root, name); LookUps(d, g, root, [name]) == ([r.0], r.1)
  {
    var r := LookUp(d, g, root, name);
    assert [name][1..] == [] && LookUps(d, r.1, root, []) == ([], r.1) && [r.0] + [] == [r.0];
  }

  lemma {:induction false} KnowsOne(d: Given, t: Ideal, root: nat, name: CString)
    ensures Answers(d, t, root, [name]) == [Known(d, t, root, name)]
  {
    assert [name][1..] == [] && Answers(d, t, root, []) == [];
  }

  lemma {:induction false} PresenceInTables(d: Given, g: Snapshot, root: nat, name: CString)
    requires Ready(d, g) && g[d.main].list == [] && root < |d.files|
    ensures Tables(d).test(root, Present(name), g).0 <==> Defines(g[d.main], name) || Visible(g, d.files[root], name)
    ensures Tables(d).test(root, Absent(name), g).0 <==> !Defines(g[d.main], name) && !Visible(g, d.files[root], name)
  {
    var seen := LookUp(d, g, root, name).0;
    LookUpSettles(d, g, root, name);
    AsksForOne(d, g, root, name);
    assert [seen] == [true] <==> seen by { assert [seen][0] == seen; }
  }

  /** #ifdef holds exactly if the name is on the command line or visible from the source, and #ifndef exactly
      if it is neither; for the meaning, exactly if it is known or not. */
  lemma {:induction false} PresenceIsDecided(d: Given, g: Snapshot, t: Ideal, root: nat, name: CString)
    requires Ready(d, g) && g[d.main].list == [] && root < |d.files|
    ensures Tables(d).test(root, Present(name), g).0 <==> Defines(g[d.main], name) || Visible(g, d.files[root], name)
    ensures Tables(d).test(root, Absent(name), g).0 <==> !Defines(g[d.main], name) && !Visible(g, d.files[root], name)
    ensures Ideals(d).test(root, Present(name), t).0 <==> name in t.command || Sees(t, d.files[root], name)
    ensures Ideals(d).test(root, Absent(name), t).0 <==> name !in t.command && !Sees(t, d.files[root], name)
  {
    PresenceInTables(d, g, root, name);
    var known := Known(d, t, root, name);
    KnowsOne(d, t, root, name);
    assert [known] == [true] <==> known by { assert [known][0] == known; }
  }

  /** An #if is what its expression makes of the answers for the names it asks for: whether each is on the
      command line or visible from the source, provided that the test is quiet. */
  lemma {:induction false} ExpressionIsJudged(d: Given, g: Snapshot, root: nat, text: string, answers: seq<bool>)
    requires Ready(d, g) && g[d.main].list == [] && root < |d.files| && |answers| == |d.asked(text)|
    requires Quiet(d, root, Expression(text), g)
    requires forall i :: 0 <= i < |answers| ==>
      (answers[i] <==> Defines(g[d.main], d.asked(text)[i]) || Visible(g, d.files[root], d.asked(text)[i]))
    ensures Tables(d).test(root, Expression(text), g).0 == d.verdict(text, answers)
  {
    LookUpsSettle(d, g, root, d.asked(text));
    assert LookUps(d, g, root, d.asked(text)).0 == answers;
  }

  /** For the meaning it is what the expression makes of the names that are known. */
  lemma {:induction false} ExpressionIsMeant(d: Given, t: Ideal, root: nat, text: string, answers: seq<bool>)
    requires root < |d.files| && |answers| == |d.asked(text)|
    requires forall i :: 0 <= i < |answers| ==>
      (answers[i] <==> d.asked(text)[i] in t.command || Sees(t, d.files[root], d.asked(text)[i]))
    ensures Ideals(d).test(root, Expression(text), t) == (d.verdict(text, answers), t)
  {
    AnswersAreKnown(d, t, root, d.asked(text));
    assert Answers(d, t, root, d.asked(text)) == answers;
  }

  lemma {:induction false} AnswersAreKnown(d: Given, t: Ideal, root: nat, names: seq<CString>)
    ensures |Answers(d, t, root, names)| == |names|
    ensures forall i :: 0 <= i < |names| ==> Answers(d, t, root, names)[i] == Known(d, t, root, names[i])
  {
    if names != [] {
      AnswersAreKnown(d, t, root, names[1..]);
      forall i | 0 < i < |names| ensures Answers(d, t, root, names)[i] == Known(d, t, root, names[i]) {
        assert names[i] == names[1..][i - 1];
        assert Answers(d, t, root, names)[i] == Answers(d, t, root, names[1..])[i - 1];
      }
    }
  }

  lemma {:induction false} SettledMatches(d: Given, g: Snapshot, h: Snapshot, t: Ideal)
    requires d.main in g && Matches(d, g, t) && h.Keys == g.Keys && KeepsVisible(g, h) && InventsNothing(g, h)
    requires h[d.main].defs == g[d.main].defs
    requires (map f | f in h :: ChildrenOf(h[f])) == (map f | f in g :: ChildrenOf(g[f]))
    ensures Matches(d, h, t)
  {
  }

  lemma {:induction false} SettledRemembers(d: Given, reading: seq<nat>, g: Snapshot, h: Snapshot, t: Ideal)
    requires Ready(d, g) && Ready(d, h) && Settles(g, h) && KeepsVisible(g, h) && InventsNothing(g, h)
    requires Remembers(d, g, t) && FreshBlank(d, reading, g, t)
    ensures Remembers(d, h, t) && FreshBlank(d, reading, h, t) && (AllGone(g, t) ==> AllGone(h, t))
  {
    forall f | f in g ensures h[f].finished == g[f].finished { assert Evolves(g[f], h[f]); }
  }

  // ---------------------------------------------------------------- files still being read

  // A file read to its end includes only such files, and reaches no other.
  lemma {:induction false} ReadReachesRead(d: Given, sources: set<nat>, reading: seq<nat>, searched: set<nat>,
                                           g: Snapshot, e: map<IncList, set<IncList>>, u: IncList, f: IncList, n: nat)
    requires Arranged(d, sources, reading, searched, g) && e == (map f | f in g :: ChildrenOf(g[f]))
    requires u in g && g[u].finished && Path(e, {}, u, f, n)
    ensures f in g && g[f].finished
    decreases n
  {
    if n > 0 {
      var z :| z in e[u] && Path(e, {}, z, f, n - 1);
      assert z in g[u].list && !ReadFrom(d, reading, u, z);
      ReadReachesRead(d, sources, reading, searched, g, e, z, f, n - 1);
    }
  }

  // Whatever has been folded, a file still being read is reached as by the includes themselves.
  lemma {:induction false} PathToUnread(d: Given, sources: set<nat>, reading: seq<nat>, searched: set<nat>, g: Snapshot,
                                        e: map<IncList, set<IncList>>, u: IncList, f: IncList, n: nat)
    requires Arranged(d, sources, reading, searched, g) && e == (map f | f in g :: ChildrenOf(g[f]))
    requires f in g && !g[f].finished && Path(e, {}, u, f, n)
    ensures Reach(Edges(g), {}, u, f)
    decreases n
  {
    if n == 0 {
      ReachSelf(Edges(g), {}, u);
    } else {
      var z :| z in e[u] && Path(e, {}, z, f, n - 1);
      PathToUnread(d, sources, reading, searched, g, e, z, f, n - 1);
      StepToUnread(d, sources, reading, searched, g, e, u, z, f, n - 1);
      ReachVia(Edges(g), {}, u, z, f);
    }
  }

  lemma {:induction false} StepToUnread(d: Given, sources: set<nat>, reading: seq<nat>, searched: set<nat>, g: Snapshot,
                                        e: map<IncList, set<IncList>>, u: IncList, z: IncList, f: IncList, n: nat)
    requires Arranged(d, sources, reading, searched, g) && e == (map f | f in g :: ChildrenOf(g[f]))
    requires f in g && !g[f].finished && u in g && z in e[u] && Path(e, {}, z, f, n)
    ensures z in Live(g[u])
  {
    if g[z].finished { ReadReachesRead(d, sources, reading, searched, g, e, z, f, n); }
    UnreadIsUnmerged(d, reading, g, u, z);
  }

  lemma {:induction false} UnreadIsUnmerged(d: Given, reading: seq<nat>, g: Snapshot, u: IncList, z: IncList)
    requires Ready(d, g) && ChildrenRead(d, reading, g) && u in g && z in g[u].list && z in g && !g[z].finished
    ensures z in Live(g[u])
  {
    var j :| 0 <= j < |g[u].list| && g[u].list[j] == z;
  }

  lemma {:induction false} ReachesUnreadAlike(d: Given, sources: set<nat>, reading: seq<nat>, searched: set<nat>,
                                              g: Snapshot, t: Ideal, u: IncList, f: IncList)
    requires Arranged(d, sources, reading, searched, g) && Matches(d, g, t) && f in g && !g[f].finished
    ensures Reach(Edges(g), {}, u, f) <==> Reach(t.includes, {}, u, f)
  {
    if Reach(Edges(g), {}, u, f) { ReachMonotone(Edges(g), t.includes, {}, {}, u, f); }
    if Reach(t.includes, {}, u, f) {
      var n: nat :| Path(t.includes, {}, u, f, n);
      PathToUnread(d, sources, reading, searched, g, t.includes, u, f, n);
    }
  }

  // ---------------------------------------------------------------- definitions

  // A name more in the table of f: whoever reaches f sees it.
  lemma {:induction false} RecordShows(d: Given, g: Snapshot, file: nat, text: string, u: IncList, z: CString)
    requires Ready(d, g) && file < |d.files| && u in g
    ensures var f, name := d.files[file], d.entry(file, text).s_name;
      Visible(Record(d, g, file, text), u, z) <==> Visible(g, u, z) || (z == name && Reach(Edges(g), {}, u, f))
  {
    var f, e := d.files[file], d.entry(file, text);
    var h := Record(d, g, file, text);
    if Defines(g[f], e.s_name) {
      assert h == g;
    } else {
      MergeIsRightBiasedUnion(g[f].defs, [e]);
      assert NamesOf([e]) == {e.s_name} by { assert e in [e]; }
      assert Edges(h) == Edges(g);
      if z == e.s_name && Reach(Edges(g), {}, u, f) { assert Defines(h[f], z); }
    }
  }

  lemma {:induction false} IdealRecordShows(d: Given, t: Ideal, file: nat, text: string, u: IncList, z: CString)
    requires file < |d.files| && d.files[file] in t.defs
    ensures var f, name := d.files[file], d.entry(file, text).s_name;
      Sees(IdealRecord(d, t, file, text), u, z) <==> Sees(t, u, z) || (z == name && Reach(t.includes, {}, u, f))
  {
    var t' := IdealRecord(d, t, file, text);
    var f, name := d.files[file], d.entry(file, text).s_name;
    if Sees(t, u, z) {
      var v :| v in t.defs && Reach(t.includes, {}, u, v) && z in t.defs[v];
      assert z in t'.defs[v];
    }
    if z == name && Reach(t.includes, {}, u, f) { assert z in t'.defs[f]; }
  }

  lemma {:induction false} RecordSettles(d: Given, g: Snapshot, file: nat, text: string)
    requires Ready(d, g) && file < |d.files|
    ensures Settles(g, Record(d, g, file, text)) && Record(d, g, file, text)[d.main].defs == g[d.main].defs
  {
    var f, e := d.files[file], d.entry(file, text);
    if Defines(g[f], e.s_name) { SettlesItself(g); } else { MergeIsRightBiasedUnion(g[f].defs, [e]); }
  }

  lemma {:induction false} DefineKeepsCoupled(d: Given, sources: set<nat>, strict: bool, p: Moment, root: nat,
                                              file: nat, text: string)
    requires Together(d, sources, strict, p) && AtFile(p, root, file)
    ensures Together(d, sources, strict,
                     After(p, Defined(file, text), Record(d, p.s, file, text), IdealRecord(d, p.t, file, text)))
  {
    var g, t := p.s, p.t;
    var h, t' := Record(d, g, file, text), IdealRecord(d, t, file, text);
    RecordSettles(d, g, file, text);
    SettledStaysArranged(d, sources, p.reading, p.searched, g, h);
    RecordMatches(d, sources, p.reading, p.searched, g, t, file, text);
    RecordRemembers(d, sources, p.reading, p.searched, g, t, file, text);
    PlainEventKeepsBooked(d, p.trace, t, Defined(file, text), t');
  }

  lemma {:induction false} RecordMatches(d: Given, sources: set<nat>, reading: seq<nat>, searched: set<nat>,
                                         g: Snapshot, t: Ideal, file: nat, text: string)
    requires Arranged(d, sources, reading, searched, g) && Matches(d, g, t) && file in reading
    requires Settles(g, Record(d, g, file, text)) && Record(d, g, file, text)[d.main].defs == g[d.main].defs
    requires var h := Record(d, g, file, text);
      (map f | f in h :: ChildrenOf(h[f])) == (map f | f in g :: ChildrenOf(g[f]))
    ensures Matches(d, Record(d, g, file, text), IdealRecord(d, t, file, text))
  {
    var h, t' := Record(d, g, file, text), IdealRecord(d, t, file, text);
    assert t'.defs.Keys == h.Keys;
    forall u, z: CString | u in h
      ensures Sees(t', u, z) ==> Visible(h, u, z)
      ensures Visible(h, u, z) ==> Sees(t', u, z) || Undone(t', u, z)
    {
      RecordShows(d, g, file, text, u, z);
      IdealRecordShows(d, t, file, text, u, z);
      ReachesUnreadAlike(d, sources, reading, searched, g, t, u, d.files[file]);
    }
  }

  // No file that has been read, nor the command line, leads to one still being read.
  lemma {:induction false} ReadLeadsToRead(d: Given, sources: set<nat>, reading: seq<nat>, searched: set<nat>,
                                           g: Snapshot, u: IncList, f: IncList)
    requires Arranged(d, sources, reading, searched, g) && u in g && (u == d.main || g[u].finished)
    requires f in g && f != d.main && !g[f].finished
    ensures !Reach(Edges(g), {}, u, f)
  {
    if Reach(Edges(g), {}, u, f) {
      if u == d.main {
        assert Live(g[u]) == {};
        OnlySelf(Edges(g), {}, u);
      } else {
        var e := map x | x in g :: ChildrenOf(g[x]);
        ReachMonotone(Edges(g), e, {}, {}, u, f);
        var n: nat :| Path(e, {}, u, f, n);
        ReadReachesRead(d, sources, reading, searched, g, e, u, f, n);
      }
    }
  }

  lemma {:induction false} RecordRemembers(d: Given, sources: set<nat>, reading: seq<nat>, searched: set<nat>,
                                           g: Snapshot, t: Ideal, file: nat, text: string)
    requires Arranged(d, sources, reading, searched, g) && Remembers(d, g, t) && FreshBlank(d, reading, g, t)
    requires file in reading && Settles(g, Record(d, g, file, text)) && Ready(d, Record(d, g, file, text))
    ensures var h, t' := Record(d, g, file, text), IdealRecord(d, t, file, text);
      Remembers(d, h, t') && FreshBlank(d, reading, h, t') && (AllGone(g, t) ==> AllGone(h, t'))
  {
    var h := Record(d, g, file, text);
    forall f | f in g ensures h[f].finished == g[f].finished { assert Evolves(g[f], h[f]); }
    forall f, z: CString | f in t.left ensures Visible(h, f, z) <==> Visible(g, f, z) {
      RecordShows(d, g, file, text, f, z);
      ReadLeadsToRead(d, sources, reading, searched, g, f, d.files[file]);
    }
  }

  lemma {:induction false} RemoveSettles(d: Given, g: Snapshot, root: nat, name: CString)
    requires Ready(d, g) && root < |d.files|
    ensures Settles(g, Remove(d, g, root, name))
  {
    var x := d.files[root];
    var h := U.Undefined(g, d.main, x, name);
    forall f | f in g ensures |h[f].merged| == |g[f].merged| && U.RetiresRead(g, h, f) {
      U.UndefinedRetiresRead(g, d.main, x, name, f);
    }
  }

  // The command line reaches nothing but itself.
  lemma {:induction false} CommandLineSeesItself(d: Given, g: Snapshot, z: CString)
    requires WellFormed(g) && d.main in g && g[d.main].list == []
    ensures Visible(g, d.main, z) <==> Defines(g[d.main], z)
  {
    assert Live(g[d.main]) == {};
    OnlySelf(Edges(g), {}, d.main);
    ReachSelf(Edges(g), {}, d.main);
  }

  lemma {:induction false} IdealRemoveHides(t: Ideal, name: CString, u: IncList, z: CString)
    ensures Sees(IdealRemove(t, name), u, z) <==> Sees(t, u, z) && z != name
  {
    var t' := IdealRemove(t, name);
    if Sees(t, u, z) && z != name {
      var v :| v in t.defs && Reach(t.includes, {}, u, v) && z in t.defs[v];
      assert z in t'.defs[v];
    }
  }

  // The source reaches every file being read.
  lemma {:induction false} ReachesReading(d: Given, reading: seq<nat>, g: Snapshot, i: nat)
    requires Ready(d, g) && Stacked(d, reading, g) && Chained(d, reading, g) && ChildrenRead(d, reading, g)
    requires i < |reading|
    ensures Reach(Edges(g), {}, d.files[reading[0]], d.files[reading[i]])
  {
    if i == 0 {
      ReachSelf(Edges(g), {}, d.files[reading[0]]);
    } else {
      ReachesReading(d, reading, g, i - 1);
      var u, f := d.files[reading[i - 1]], d.files[reading[i]];
      assert f in g[u].list by { assert i - 1 + 1 == i; }
      UnreadIsUnmerged(d, reading, g, u, f);
      ReachSelf(Edges(g), {}, f);
      ReachVia(Edges(g), {}, u, f, f);
      ReachTransitive(Edges(g), {}, d.files[reading[0]], u, f);
    }
  }

  // What the source does not see, no file being read sees.
  lemma {:induction false} UnseenInReading(d: Given, reading: seq<nat>, g: Snapshot, i: nat, name: CString)
    requires Ready(d, g) && Stacked(d, reading, g) && Chained(d, reading, g) && ChildrenRead(d, reading, g)
    requires i < |reading| && !Visible(g, d.files[reading[0]], name)
    ensures !Visible(g, d.files[reading[i]], name)
  {
    if Visible(g, d.files[reading[i]], name) {
      var u :| u in g && Reach(Edges(g), {}, d.files[reading[i]], u) && Defines(g[u], name);
      ReachesReading(d, reading, g, i);
      ReachTransitive(Edges(g), {}, d.files[reading[0]], d.files[reading[i]], u);
    }
  }

  // Nor does a slot that has not been opened see anything.
  lemma {:induction false} UnopenedSeesNothing(d: Given, sources: set<nat>, p: Moment, i: nat, name: CString)
    requires Coupled(d, sources, p) && i < |d.files| && i !in p.reading && !p.s[d.files[i]].finished
    ensures !Visible(p.s, d.files[i], name)
  {
    var f := d.files[i];
    assert p.t.includes[f] == {};
    OnlySelf(p.t.includes, {}, f);
  }

  // After an #undef only files that have been read can show the name.
  lemma {:induction false} OnlyReadShow(d: Given, sources: set<nat>, p: Moment, root: nat, name: CString, f: IncList)
    requires Coupled(d, sources, p) && p.reading != [] && p.reading[0] == root
    requires Arranged(d, sources, p.reading, p.searched, Remove(d, p.s, root, name))
    requires Visible(Remove(d, p.s, root, name), f, name) && InventsNothing(p.s, Remove(d, p.s, root, name))
    requires f in p.s
    ensures f in p.t.gone
  {
    var g, h := p.s, Remove(d, p.s, root, name);
    U.UndefinedIsOutOfSight(g, d.main, d.files[root], name);
    if f != d.main && !g[f].finished {
      var i: nat :| i < |d.files| && d.files[i] == f;
      if i in p.reading {
        var j :| 0 <= j < |p.reading| && p.reading[j] == i;
        UnseenInReading(d, p.reading, h, j, name);
      } else {
        UnopenedSeesNothing(d, sources, p, i, name);
      }
    }
  }

  lemma {:induction false} UndefKeepsCoupled(d: Given, sources: set<nat>, strict: bool, p: Moment, root: nat,
                                             name: CString)
    requires Together(d, sources, strict, p) && p.reading != [] && p.reading[0] == root
    requires TableManners(d, sources, strict).clean(root, name, p.s)
    ensures Together(d, sources, strict, After(p, Undefined(name), Remove(d, p.s, root, name), IdealRemove(p.t, name)))
  {
    var g, h := p.s, Remove(d, p.s, root, name);
    RemoveSettles(d, g, root, name);
    SettledStaysArranged(d, sources, p.reading, p.searched, g, h);
    C.UndefIsTidyExactlyWhen(g, d.main, d.files[root], name);
    C.UndefinedInvents(g, d.main, d.files[root], name);
    forall u | u in g && Visible(h, u, name) ensures u in p.t.gone { OnlyReadShow(d, sources, p, root, name, u); }
    RemoveMatches(d, g, p.t, root, name);
    RemoveRemembers(d, p.reading, g, p.t, root, name);
    UndefKeepsBooked(d, p.trace, p.t, name);
    if strict {
      C.UndefIsCleanExactlyWhen(g, d.main, d.files[root], name);
      RemoveKeepsAllGone(d, g, p.t, root, name);
    }
  }

  lemma {:induction false} RemoveKeepsAllGone(d: Given, g: Snapshot, t: Ideal, root: nat, name: CString)
    requires AllGone(g, t) && C.TakesJust(g, Remove(d, g, root, name), name)
    requires Remove(d, g, root, name).Keys == g.Keys
    ensures AllGone(Remove(d, g, root, name), IdealRemove(t, name))
  {
  }

  lemma {:induction false} RemoveRemembers(d: Given, reading: seq<nat>, g: Snapshot, t: Ideal, root: nat, name: CString)
    requires Ready(d, g) && Ready(d, Remove(d, g, root, name)) && Remembers(d, g, t) && FreshBlank(d, reading, g, t)
    requires var h := Remove(d, g, root, name);
      Settles(g, h) && C.HidesNoOther(g, h, name) && InventsNothing(g, h)
    ensures Remembers(d, Remove(d, g, root, name), IdealRemove(t, name))
    ensures FreshBlank(d, reading, Remove(d, g, root, name), IdealRemove(t, name))
  {
    var h := Remove(d, g, root, name);
    forall f | f in g ensures h[f].finished == g[f].finished { assert Evolves(g[f], h[f]); }
  }

  lemma {:induction false} RemoveMatches(d: Given, g: Snapshot, t: Ideal, root: nat, name: CString)
    requires Ready(d, g) && root < |d.files| && g[d.main].list == [] && Matches(d, g, t)
    requires var h := Remove(d, g, root, name);
      && Ready(d, h) && h.Keys == g.Keys && h[d.main].list == []
      && C.HidesNoOther(g, h, name) && InventsNothing(g, h)
      && (map f | f in h :: ChildrenOf(h[f])) == (map f | f in g :: ChildrenOf(g[f]))
      && forall u :: u in g && Visible(h, u, name) ==> u in t.gone
    ensures Matches(d, Remove(d, g, root, name), IdealRemove(t, name))
  {
    ViewsWithout(g, Remove(d, g, root, name), t, name);
    RemoveFromCommandLine(d, g, root, name);
  }

  lemma {:induction false} ViewsWithout(g: Snapshot, h: Snapshot, t: Ideal, name: CString)
    requires h.Keys == g.Keys && C.HidesNoOther(g, h, name) && InventsNothing(g, h) && ViewsMatch(g, t)
    requires forall u :: u in g && Visible(h, u, name) ==> u in t.gone
    ensures ViewsMatch(h, IdealRemove(t, name))
  {
    var t' := IdealRemove(t, name);
    forall u, z: CString | u in h
      ensures Sees(t', u, z) ==> Visible(h, u, z)
      ensures Visible(h, u, z) ==> Sees(t', u, z) || Undone(t', u, z)
    {
      IdealRemoveHides(t, name, u, z);
    }
  }

  lemma {:induction false} RemoveFromCommandLine(d: Given, g: Snapshot, root: nat, name: CString)
    requires Ready(d, g) && root < |d.files| && g[d.main].list == []
    requires var h := Remove(d, g, root, name);
      && Ready(d, h) && h.Keys == g.Keys && h[d.main].list == []
      && C.HidesNoOther(g, h, name) && InventsNothing(g, h)
    ensures NamesOf(Remove(d, g, root, name)[d.main].defs) == NamesOf(g[d.main].defs) - {name}
  {
    var h := Remove(d, g, root, name);
    U.UndefinedIsOutOfSight(g, d.main, d.files[root], name);
    forall z: CString ensures z in NamesOf(h[d.main].defs) <==> z in NamesOf(g[d.main].defs) - {name} {
      CommandLineSeesItself(d, g, z);
      CommandLineSeesItself(d, h, z);
    }
  }

  // ---------------------------------------------------------------- inclusions

  lemma {:induction false} LinkShows(d: Given, g: Snapshot, file: nat, entry: nat, u: IncList, z: CString)
    requires Ready(d, g) && file < |d.files| && entry < |d.files| && u in g
    requires d.files[entry] !in g[d.files[file]].list
    ensures var x, c := d.files[file], d.files[entry];
      Visible(Link(d, g, file, entry), u, z) <==> Visible(g, u, z) || (Reach(Edges(g), {}, u, x) && Visible(g, c, z))
  {
    var x, c := d.files[file], d.files[entry];
    var h := Link(d, g, file, entry);
    LinkEdges(d, g, file, entry);
    if Visible(h, u, z) {
      var v :| v in h && Reach(Edges(h), {}, u, v) && Defines(h[v], z);
      ReachWithNewEdge(Edges(g), Edges(h), x, c, u, v);
    }
    if Visible(g, u, z) {
      var v :| v in g && Reach(Edges(g), {}, u, v) && Defines(g[v], z);
      ReachWithNewEdge(Edges(g), Edges(h), x, c, u, v);
      assert Defines(h[v], z);
    }
    if Reach(Edges(g), {}, u, x) && Visible(g, c, z) {
      var v :| v in g && Reach(Edges(g), {}, c, v) && Defines(g[v], z);
      ReachWithNewEdge(Edges(g), Edges(h), x, c, u, v);
      assert Defines(h[v], z);
    }
  }

  lemma {:induction false} LinkEdges(d: Given, g: Snapshot, file: nat, entry: nat)
    requires Ready(d, g) && file < |d.files| && entry < |d.files|
    requires d.files[entry] !in g[d.files[file]].list
    ensures var x := d.files[file];
      Edges(Link(d, g, file, entry)) == Edges(g)[x := Edges(g)[x] + {d.files[entry]}]
  {
    var x, c := d.files[file], d.files[entry];
    var h := Link(d, g, file, entry);
    assert forall j :: 0 <= j < |g[x].list| ==> h[x].list[j] == g[x].list[j] && h[x].merged[j] == g[x].merged[j];
    assert h[x].list[|g[x].list|] == c && !h[x].merged[|g[x].list|];
    assert Live(h[x]) == Live(g[x]) + {c};
  }

  lemma {:induction false} IdealLinkShows(d: Given, t: Ideal, file: nat, entry: nat, u: IncList, z: CString)
    requires file < |d.files| && entry < |d.files| && d.files[file] in t.includes && d.files[entry] in t.includes
    ensures var x, c := d.files[file], d.files[entry];
      Sees(IdealLink(d, t, file, entry), u, z) <==> Sees(t, u, z) || (Reach(t.includes, {}, u, x) && Sees(t, c, z))
  {
    var x, c, t' := d.files[file], d.files[entry], IdealLink(d, t, file, entry);
    if Sees(t', u, z) {
      var v :| v in t'.defs && Reach(t'.includes, {}, u, v) && z in t'.defs[v];
      ReachWithNewEdge(t.includes, t'.includes, x, c, u, v);
    }
    if Sees(t, u, z) {
      var v :| v in t.defs && Reach(t.includes, {}, u, v) && z in t.defs[v];
      ReachWithNewEdge(t.includes, t'.includes, x, c, u, v);
    }
    if Reach(t.includes, {}, u, x) && Sees(t, c, z) {
      var v :| v in t.defs && Reach(t.includes, {}, c, v) && z in t.defs[v];
      ReachWithNewEdge(t.includes, t'.includes, x, c, u, v);
    }
  }

  // A file that is not being read does not lead to one that is.
  lemma {:induction false} NeverBack(d: Given, sources: set<nat>, reading: seq<nat>, searched: set<nat>, g: Snapshot,
                                     t: Ideal, file: nat, entry: nat)
    requires Arranged(d, sources, reading, searched, g) && Matches(d, g, t)
    requires file in reading && entry < |d.files| && entry !in reading && entry !in sources
    ensures !Reach(t.includes, {}, d.files[entry], d.files[file])
  {
    var x, c := d.files[file], d.files[entry];
    assert file != entry;
    if Reach(t.includes, {}, c, x) {
      if g[c].finished {
        var n: nat :| Path(t.includes, {}, c, x, n);
        ReadReachesRead(d, sources, reading, searched, g, t.includes, c, x, n);
      } else {
        assert t.includes[c] == {};
        OnlySelf(t.includes, {}, c);
      }
    }
  }

  lemma {:induction false} StaysWithoutCycle(e: map<IncList, set<IncList>>, x: IncList, c: IncList)
    requires NoCycle(e) && x in e && c in e && !Reach(e, {}, c, x)
    ensures NoCycle(e[x := e[x] + {c}])
  {
    var k := e[x := e[x] + {c}];
    forall f, y | f in k && y in k[f] ensures !Reach(k, {}, y, f) {
      ReachWithNewEdge(e, k, x, c, y, f);
      if Reach(e, {}, y, x) && Reach(e, {}, c, f) {
        if y in e[f] {
          ReachVia(e, {}, f, y, x);
          ReachTransitive(e, {}, c, f, x);
        }
      }
    }
  }

  // What is included is shown as it should be.
  lemma {:induction false} ShownRightly(d: Given, sources: set<nat>, strict: bool, p: Moment, entry: nat, z: CString)
    requires Together(d, sources, strict, p) && entry < |d.files|
    requires TableManners(d, sources, strict).includable(p.reading, entry, p.trace, p.s)
    ensures Visible(p.s, d.files[entry], z) <==> Sees(p.t, d.files[entry], z)
  {
    assert !strict ==> UpToDate(d, p.trace, entry, p.s);
  }

  lemma {:induction false} LinkMatches(d: Given, sources: set<nat>, p: Moment, root: nat, file: nat, entry: nat)
    requires Arranged(d, sources, p.reading, p.searched, p.s) && Matches(d, p.s, p.t)
    requires AtFile(p, root, file) && entry < |d.files| && entry !in p.reading && entry !in sources
    requires forall z: CString :: Visible(p.s, d.files[entry], z) <==> Sees(p.t, d.files[entry], z)
    ensures Matches(d, Link(d, p.s, file, entry), IdealLink(d, p.t, file, entry))
  {
    if d.files[entry] in p.s[d.files[file]].list {
      LinkChangesNothing(d, p.s, p.t, file, entry);
    } else {
      LinkFiles(d, sources, p, root, file, entry);
      LinkViews(d, sources, p, root, file, entry);
    }
  }

  lemma {:induction false} LinkChangesNothing(d: Given, g: Snapshot, t: Ideal, file: nat, entry: nat)
    requires Ready(d, g) && file < |d.files| && entry < |d.files| && d.files[entry] in g[d.files[file]].list
    requires t.includes == map f | f in g :: ChildrenOf(g[f])
    ensures Link(d, g, file, entry) == g && IdealLink(d, t, file, entry) == t
  {
    assert t.includes[d.files[file]] + {d.files[entry]} == t.includes[d.files[file]];
  }

  // The edges after a new inclusion.
  lemma {:induction false} LinkFiles(d: Given, sources: set<nat>, p: Moment, root: nat, file: nat, entry: nat)
    requires Arranged(d, sources, p.reading, p.searched, p.s) && Matches(d, p.s, p.t)
    requires AtFile(p, root, file) && entry < |d.files| && entry !in p.reading && entry !in sources
    requires d.files[entry] !in p.s[d.files[file]].list
    ensures var h, t' := Link(d, p.s, file, entry), IdealLink(d, p.t, file, entry);
      && h.Keys == p.s.Keys && t'.defs == p.t.defs && t'.command == p.t.command && h[d.main] == p.s[d.main]
      && t'.includes == (map f | f in h :: ChildrenOf(h[f])) && NoCycle(t'.includes)
  {
    var g, t := p.s, p.t;
    var h, t' := Link(d, g, file, entry), IdealLink(d, t, file, entry);
    var x, c := d.files[file], d.files[entry];
    NeverBack(d, sources, p.reading, p.searched, g, t, file, entry);
    StaysWithoutCycle(t.includes, x, c);
    assert ChildrenOf(h[x]) == ChildrenOf(g[x]) + {c} by { assert h[x].list[|g[x].list|] == c; }
  }

  lemma {:induction false} LinkViews(d: Given, sources: set<nat>, p: Moment, root: nat, file: nat, entry: nat)
    requires Arranged(d, sources, p.reading, p.searched, p.s) && Matches(d, p.s, p.t)
    requires AtFile(p, root, file) && entry < |d.files|
    requires d.files[entry] !in p.s[d.files[file]].list
    requires forall z: CString :: Visible(p.s, d.files[entry], z) <==> Sees(p.t, d.files[entry], z)
    ensures var h, t' := Link(d, p.s, file, entry), IdealLink(d, p.t, file, entry);
      && (forall u, z: CString :: u in h && Sees(t', u, z) ==> Visible(h, u, z))
      && forall u, z: CString :: u in h && Visible(h, u, z) ==> Sees(t', u, z) || Undone(t', u, z)
  {
    var g, t := p.s, p.t;
    var h, t' := Link(d, g, file, entry), IdealLink(d, t, file, entry);
    forall u, z: CString | u in h
      ensures Sees(t', u, z) ==> Visible(h, u, z)
      ensures Visible(h, u, z) ==> Sees(t', u, z) || Undone(t', u, z)
    {
      LinkShows(d, g, file, entry, u, z);
      IdealLinkShows(d, t, file, entry, u, z);
      ReachesUnreadAlike(d, sources, p.reading, p.searched, g, t, u, d.files[file]);
    }
  }

  lemma {:induction false} LinkStaysReady(d: Given, g: Snapshot, file: nat, entry: nat)
    requires Ready(d, g) && file < |d.files| && entry < |d.files|
    ensures var h := Link(d, g, file, entry);
      && Ready(d, h) && h[d.main] == g[d.main]
      && (forall f :: f in g && f != d.files[file] ==> h[f] == g[f])
      && h[d.files[file]].finished == g[d.files[file]].finished
      && (forall c :: c in h[d.files[file]].list <==> c in g[d.files[file]].list || c == d.files[entry])
      && (forall j: nat :: j < |h[d.files[file]].list| && h[d.files[file]].merged[j] ==>
            j < |g[d.files[file]].list| && g[d.files[file]].merged[j]
            && h[d.files[file]].list[j] == g[d.files[file]].list[j])
  {
    var x, c := d.files[file], d.files[entry];
    var h := Link(d, g, file, entry);
    if c !in g[x].list {
      assert Checked(h) == Checked(g);
      assert h[x].list[|g[x].list|] == c;
      assert forall y :: y in g[x].list ==> y in h[x].list;
    }
  }

  lemma {:induction false} LinkRemembers(d: Given, sources: set<nat>, reading: seq<nat>, searched: set<nat>,
                                         g: Snapshot, t: Ideal, file: nat, entry: nat)
    requires Arranged(d, sources, reading, searched, g) && Remembers(d, g, t) && file in reading && entry < |d.files|
    ensures var h, t' := Link(d, g, file, entry), IdealLink(d, t, file, entry);
      Remembers(d, h, t') && (AllGone(g, t) ==> AllGone(h, t'))
  {
    var h := Link(d, g, file, entry);
    if d.files[entry] !in g[d.files[file]].list {
      forall f, z: CString | f in t.left ensures Visible(h, f, z) <==> Visible(g, f, z) {
        LinkShows(d, g, file, entry, f, z);
        ReadLeadsToRead(d, sources, reading, searched, g, f, d.files[file]);
      }
    }
  }

  lemma {:induction false} LinkBlank(d: Given, reading: seq<nat>, g: Snapshot, t: Ideal, file: nat, entry: nat)
    requires Ready(d, g) && Ready(d, Link(d, g, file, entry)) && FreshBlank(d, reading, g, t)
    requires file < |d.files| && entry < |d.files|
    ensures FreshBlank(d, reading, Link(d, g, file, entry), IdealLink(d, t, file, entry))
    ensures FreshBlank(d, reading + [entry], Link(d, g, file, entry), IdealLink(d, t, file, entry))
  {
    LinkStaysReady(d, g, file, entry);
    assert forall i :: i in reading ==> i in reading + [entry];
  }

  // A header that has been read is included once more.
  lemma {:induction false} LinkAgain(d: Given, sources: set<nat>, strict: bool, p: Moment, root: nat, file: nat,
                                     entry: nat)
    requires Together(d, sources, strict, p) && AtFile(p, root, file) && entry < |d.files|
    requires TableManners(d, sources, strict).includable(p.reading, entry, p.trace, p.s) && entry in p.searched
    ensures Together(d, sources, strict,
                     After(p, Included(file, entry), Link(d, p.s, file, entry), IdealLink(d, p.t, file, entry)))
  {
    LinkStaysReady(d, p.s, file, entry);
    forall z: CString ensures Visible(p.s, d.files[entry], z) <==> Sees(p.t, d.files[entry], z) {
      ShownRightly(d, sources, strict, p, entry, z);
    }
    LinkMatches(d, sources, p, root, file, entry);
    LinkRemembers(d, sources, p.reading, p.searched, p.s, p.t, file, entry);
    LinkBlank(d, p.reading, p.s, p.t, file, entry);
    PlainEventKeepsBooked(d, p.trace, p.t, Included(file, entry), IdealLink(d, p.t, file, entry));
    assert p.s[d.files[entry]].finished;
    ArrangedAgain(d, sources, p.reading, p.searched, p.s, Link(d, p.s, file, entry), d.files[file], d.files[entry]);
  }

  lemma {:induction false} ArrangedAgain(d: Given, sources: set<nat>, reading: seq<nat>, searched: set<nat>,
                                         g: Snapshot, h: Snapshot, x: IncList, c: IncList)
    requires Arranged(d, sources, reading, searched, g) && Ready(d, h) && h[d.main] == g[d.main]
    requires x in g && c in g && c != d.main && g[c].finished && !g[x].finished && reading != []
    requires exists i :: 0 <= i < |reading| && reading[i] < |d.files| && d.files[reading[i]] == x
    requires h.Keys == g.Keys && (forall f :: f in g && f != x ==> h[f] == g[f]) && h[x].finished == g[x].finished
    requires forall y :: y in h[x].list <==> y in g[x].list || y == c
    requires forall j: nat :: j < |h[x].list| && h[x].merged[j] ==>
      j < |g[x].list| && g[x].merged[j] && h[x].list[j] == g[x].list[j]
    ensures Arranged(d, sources, reading, searched, h)
  {
    ChildrenReadAgain(d, reading, g, h, x, c);
    StackedAgain(d, sources, reading, searched, g, h, x);
    assert Chained(d, reading, h);
  }

  lemma {:induction false} ChildrenReadAgain(d: Given, reading: seq<nat>, g: Snapshot, h: Snapshot, x: IncList,
                                             c: IncList)
    requires Ready(d, g) && ChildrenRead(d, reading, g) && Ready(d, h)
    requires x in g && c in g && c != d.main && g[c].finished
    requires h.Keys == g.Keys && (forall f :: f in g && f != x ==> h[f] == g[f]) && h[x].finished == g[x].finished
    requires forall y :: y in h[x].list <==> y in g[x].list || y == c
    requires forall j: nat :: j < |h[x].list| && h[x].merged[j] ==>
      j < |g[x].list| && g[x].merged[j] && h[x].list[j] == g[x].list[j]
    ensures ChildrenRead(d, reading, h)
  {
    assert forall y :: y in g ==> h[y].finished == g[y].finished;
    forall f, y | f in h && y in h[f].list
      ensures y in h && y != d.main && (h[y].finished || ReadFrom(d, reading, f, y))
    {
      if y != c { assert y in g[f].list; }
    }
    forall f, j: nat | f in h && j < |h[f].list| && h[f].merged[j] ensures h[h[f].list[j]].finished {
      assert g[f].merged[j] && h[f].list[j] == g[f].list[j];
    }
  }

  lemma {:induction false} StackedAgain(d: Given, sources: set<nat>, reading: seq<nat>, searched: set<nat>,
                                        g: Snapshot, h: Snapshot, x: IncList)
    requires Ready(d, g) && Ready(d, h) && Stacked(d, reading, g) && FreshEmpty(d, reading, g)
    requires Flagged(d, sources, reading, searched, g)
    requires exists i :: 0 <= i < |reading| && reading[i] < |d.files| && d.files[reading[i]] == x
    requires h.Keys == g.Keys && (forall f :: f in g && f != x ==> h[f] == g[f]) && x in g
    requires h[x].finished == g[x].finished
    ensures Stacked(d, reading, h) && FreshEmpty(d, reading, h) && Flagged(d, sources, reading, searched, h)
  {
  }

  lemma {:induction false} LinkEnters(d: Given, sources: set<nat>, strict: bool, p: Moment, root: nat, file: nat,
                                      entry: nat)
    requires Together(d, sources, strict, p) && AtFile(p, root, file) && entry < |d.files|
    requires TableManners(d, sources, strict).includable(p.reading, entry, p.trace, p.s) && entry !in p.searched
    ensures Together(d, sources, strict, Entered(Tables(d), Ideals(d), p, file, entry))
  {
    LinkStaysReady(d, p.s, file, entry);
    forall z: CString ensures Visible(p.s, d.files[entry], z) <==> Sees(p.t, d.files[entry], z) {
      ShownRightly(d, sources, strict, p, entry, z);
    }
    LinkMatches(d, sources, p, root, file, entry);
    LinkRemembers(d, sources, p.reading, p.searched, p.s, p.t, file, entry);
    LinkBlank(d, p.reading, p.s, p.t, file, entry);
    EnterKeepsBooked(d, p.trace, p.t, file, entry);
    ChildrenReadInside(d, p.reading, p.s, file, entry);
    StackedInside(d, sources, p.reading, p.searched, p.s, file, entry);
    ChainedInside(d, p.reading, p.s, file, entry);
  }

  lemma {:induction false} EnterKeepsBooked(d: Given, trace: seq<Event>, t: Ideal, file: nat, entry: nat)
    requires Booked(d, trace, t)
    ensures Booked(d, trace + [Included(file, entry)] + [Opened(entry)], IdealLink(d, t, file, entry))
  {
    var next := IdealLink(d, t, file, entry);
    PlainEventKeepsBooked(d, trace, t, Included(file, entry), next);
    PlainEventKeepsBooked(d, trace + [Included(file, entry)], next, Opened(entry), next);
  }

  lemma {:induction false} ChainedInside(d: Given, reading: seq<nat>, g: Snapshot, file: nat, entry: nat)
    requires Ready(d, g) && Chained(d, reading, g) && Top(reading, file) && file < |d.files| && entry < |d.files|
    requires Ready(d, Link(d, g, file, entry))
    ensures Chained(d, reading + [entry], Link(d, g, file, entry))
  {
    LinkStaysReady(d, g, file, entry);
    var h, more := Link(d, g, file, entry), reading + [entry];
    forall i | 0 <= i < |more| - 1 && more[i] < |d.files| && more[i + 1] < |d.files|
      ensures d.files[more[i + 1]] in h[d.files[more[i]]].list
    {
      assert more[i] == reading[i];
      if i < |reading| - 1 { assert more[i + 1] == reading[i + 1]; }
    }
  }

  lemma {:induction false} StillReadFrom(d: Given, reading: seq<nat>, entry: nat, f: IncList, c: IncList)
    requires ReadFrom(d, reading, f, c)
    ensures ReadFrom(d, reading + [entry], f, c)
  {
    var i :| 0 <= i < |reading| - 1 && reading[i] < |d.files| && reading[i + 1] < |d.files|
      && f == d.files[reading[i]] && c == d.files[reading[i + 1]];
    var more := reading + [entry];
    assert more[i] == reading[i] && more[i + 1] == reading[i + 1];
  }

  lemma {:induction false} ChildrenReadInside(d: Given, reading: seq<nat>, g: Snapshot, file: nat, entry: nat)
    requires Ready(d, g) && Stacked(d, reading, g) && ChildrenRead(d, reading, g) && Top(reading, file)
    requires entry < |d.files|
    ensures Ready(d, Link(d, g, file, entry)) && ChildrenRead(d, reading + [entry], Link(d, g, file, entry))
  {
    LinkStaysReady(d, g, file, entry);
    var h, more := Link(d, g, file, entry), reading + [entry];
    var x, c := d.files[file], d.files[entry];
    assert more[|reading|] == entry && more[|reading| - 1] == file;
    assert ReadFrom(d, more, x, c);
    forall f, y | f in h && y in h[f].list ensures y in h && y != d.main && (h[y].finished || ReadFrom(d, more, f, y)) {
      if f != x || y != c { ChildReadInside(d, reading, g, file, entry, f, y); }
    }
    LinkMergesNothing(d, g, file, entry);
  }

  lemma {:induction false} LinkMergesNothing(d: Given, g: Snapshot, file: nat, entry: nat)
    requires Ready(d, g) && file < |d.files| && entry < |d.files|
    requires forall f, j: nat :: f in g && j < |g[f].list| && g[f].merged[j] ==> g[g[f].list[j]].finished
    ensures var h := Link(d, g, file, entry);
      Ready(d, h) && forall f, j: nat :: f in h && j < |h[f].list| && h[f].merged[j] ==> h[h[f].list[j]].finished
  {
    LinkStaysReady(d, g, file, entry);
    var h := Link(d, g, file, entry);
    forall f, j: nat | f in h && j < |h[f].list| && h[f].merged[j] ensures h[h[f].list[j]].finished {
      assert j < |g[f].list| && g[f].merged[j] && h[f].list[j] == g[f].list[j];
    }
  }

  lemma {:induction false} ChildReadInside(d: Given, reading: seq<nat>, g: Snapshot, file: nat, entry: nat, f: IncList,
                                           y: IncList)
    requires Ready(d, g) && ChildrenRead(d, reading, g) && file < |d.files| && entry < |d.files|
    requires var h := Link(d, g, file, entry);
      f in h && y in h[f].list && (f != d.files[file] || y != d.files[entry])
    ensures var h := Link(d, g, file, entry);
      y in h && y != d.main && (h[y].finished || ReadFrom(d, reading + [entry], f, y))
  {
    LinkStaysReady(d, g, file, entry);
    assert y in g[f].list;
    if ReadFrom(d, reading, f, y) { StillReadFrom(d, reading, entry, f, y); }
  }

  lemma {:induction false} StackedInside(d: Given, sources: set<nat>, reading: seq<nat>, searched: set<nat>,
                                         g: Snapshot, file: nat, entry: nat)
    requires Arranged(d, sources, reading, searched, g) && Top(reading, file)
    requires entry < |d.files| && entry !in reading && entry !in sources && entry !in searched
    requires Ready(d, Link(d, g, file, entry))
    ensures var h, more := Link(d, g, file, entry), reading + [entry];
      Stacked(d, more, h) && FreshEmpty(d, more, h) && Flagged(d, sources, more, searched + {entry}, h)
  {
    LinkStaysReady(d, g, file, entry);
    var h, more := Link(d, g, file, entry), reading + [entry];
    assert more[|reading|] == entry && forall i :: 0 <= i < |reading| ==> more[i] == reading[i];
    assert forall i: nat :: i < |d.files| ==> h[d.files[i]].finished == g[d.files[i]].finished;
    FlaggedInside(d, sources, reading, searched, g, h, entry);
    forall i: nat | i < |d.files| && i !in more ensures i !in reading && i != file && h[d.files[i]] == g[d.files[i]] {
      assert more[|reading| - 1] == file;
    }
  }

  lemma {:induction false} FlaggedInside(d: Given, sources: set<nat>, reading: seq<nat>, searched: set<nat>,
                                         g: Snapshot, h: Snapshot, entry: nat)
    requires Ready(d, g) && Ready(d, h) && Flagged(d, sources, reading, searched, g) && reading != []
    requires forall i: nat :: i < |d.files| ==> h[d.files[i]].finished == g[d.files[i]].finished
    ensures Flagged(d, sources, reading + [entry], searched + {entry}, h)
  {
    var more := reading + [entry];
    assert more[|reading|] == entry && forall i :: 0 <= i < |reading| ==> more[i] == reading[i];
  }

  lemma {:induction false} CloseKeepsViews(d: Given, g: Snapshot, file: nat, u: IncList, z: CString)
    requires Ready(d, g) && file < |d.files| && u in g
    ensures Visible(Close(d, g, file), u, z) <==> Visible(g, u, z)
  {
    var h := Close(d, g, file);
    assert Edges(h) == Edges(g);
    assert forall v :: v in g ==> Defines(h[v], z) == Defines(g[v], z);
  }

  lemma {:induction false} CloseKeepsCoupled(d: Given, sources: set<nat>, strict: bool, p: Moment, root: nat, file: nat)
    requires Together(d, sources, strict, p) && AtFile(p, root, file)
    ensures Together(d, sources, strict,
                     Stage(p.reading[..|p.reading| - 1], p.searched, p.trace + [Finished(file)], Close(d, p.s, file),
                           IdealClose(d, p.t, file)))
  {
    ArrangedOutside(d, sources, p.reading, p.searched, p.s, file);
    CloseMatches(d, p.s, p.t, file);
    CloseRemembers(d, p.reading, p.s, p.t, file);
    FinishKeepsBooked(d, p.trace, p.t, file);
    CloseKeepsBlank(d, p.reading, p.s, p.t, file);
    if strict { CloseKeepsAllGone(d, p.s, p.t, file); }
  }

  lemma {:induction false} CloseKeepsBlank(d: Given, reading: seq<nat>, g: Snapshot, t: Ideal, file: nat)
    requires Ready(d, g) && Ready(d, Close(d, g, file)) && file < |d.files| && Top(reading, file)
    requires FreshBlank(d, reading, g, t)
    ensures FreshBlank(d, reading[..|reading| - 1], Close(d, g, file), IdealClose(d, t, file))
  {
    var less := reading[..|reading| - 1];
    forall i: nat | i < |d.files| && i != file && i !in less ensures i !in reading {
      assert reading == less + [file];
    }
  }

  lemma {:induction false} CloseKeepsAllGone(d: Given, g: Snapshot, t: Ideal, file: nat)
    requires Ready(d, g) && file < |d.files| && AllGone(g, t)
    ensures AllGone(Close(d, g, file), IdealClose(d, t, file))
  {
    var h, t' := Close(d, g, file), IdealClose(d, t, file);
    forall f, z: CString | f in h && Undone(t', f, z) ensures !Visible(h, f, z) {
      CloseKeepsViews(d, g, file, f, z);
    }
  }

  lemma {:induction false} CloseRemembers(d: Given, reading: seq<nat>, g: Snapshot, t: Ideal, file: nat)
    requires Ready(d, g) && Ready(d, Close(d, g, file)) && file < |d.files| && Top(reading, file)
    requires Matches(d, g, t) && Remembers(d, g, t) && FreshBlank(d, reading, g, t) && !g[d.files[file]].finished
    ensures var h, t' := Close(d, g, file), IdealClose(d, t, file);
      && Remembers(d, h, t') && FreshBlank(d, reading[..|reading| - 1], h, t') && (AllGone(g, t) ==> AllGone(h, t'))
  {
    var h, t', f := Close(d, g, file), IdealClose(d, t, file), d.files[file];
    forall u, z: CString | u in g ensures Visible(h, u, z) <==> Visible(g, u, z) { CloseKeepsViews(d, g, file, u, z); }
    forall z: CString ensures z in t'.left[f] <==> Visible(h, f, z) { assert z in Seen(t, f) <==> Sees(t, f, z); }
    assert reading == reading[..|reading| - 1] + [file];
  }

  lemma {:induction false} CloseMatches(d: Given, g: Snapshot, t: Ideal, file: nat)
    requires Ready(d, g) && file < |d.files| && Matches(d, g, t) && Remembers(d, g, t) && !g[d.files[file]].finished
    ensures Matches(d, Close(d, g, file), IdealClose(d, t, file))
  {
    var h, t' := Close(d, g, file), IdealClose(d, t, file);
    forall u, z: CString | u in h
      ensures Sees(t', u, z) ==> Visible(h, u, z)
      ensures Visible(h, u, z) ==> Sees(t', u, z) || Undone(t', u, z)
    {
      CloseKeepsViews(d, g, file, u, z);
      assert Sees(t', u, z) <==> Sees(t, u, z);
    }
    assert (map f | f in h :: ChildrenOf(h[f])) == (map f | f in g :: ChildrenOf(g[f]));
  }

  lemma {:induction false} ArrangedOutside(d: Given, sources: set<nat>, reading: seq<nat>, searched: set<nat>,
                                           g: Snapshot, file: nat)
    requires Arranged(d, sources, reading, searched, g) && Top(reading, file)
    ensures Arranged(d, sources, reading[..|reading| - 1], searched, Close(d, g, file))
  {
    CloseStaysReady(d, g, file);
    ChildrenReadOutside(d, reading, g, file);
    StackedOutside(d, sources, reading, searched, g, file);
  }

  lemma {:induction false} CloseStaysReady(d: Given, g: Snapshot, file: nat)
    requires Ready(d, g) && file < |d.files|
    ensures Ready(d, Close(d, g, file))
  {
    assert Checked(Close(d, g, file)) == Checked(g);
  }

  lemma {:induction false} ChildrenReadOutside(d: Given, reading: seq<nat>, g: Snapshot, file: nat)
    requires Ready(d, g) && Stacked(d, reading, g) && ChildrenRead(d, reading, g) && Top(reading, file)
    requires Ready(d, Close(d, g, file))
    ensures ChildrenRead(d, reading[..|reading| - 1], Close(d, g, file))
  {
    var less, h := reading[..|reading| - 1], Close(d, g, file);
    forall f, c | f in h && c in h[f].list
      ensures c in h && c != d.main && (h[c].finished || ReadFrom(d, less, f, c))
    {
      assert c in g[f].list;
      if ReadFrom(d, reading, f, c) && !g[c].finished {
        var i :| 0 <= i < |reading| - 1 && reading[i] < |d.files| && reading[i + 1] < |d.files|
          && f == d.files[reading[i]] && c == d.files[reading[i + 1]];
        if i + 1 < |reading| - 1 { assert less[i] == reading[i] && less[i + 1] == reading[i + 1]; }
      }
    }
  }

  lemma {:induction false} StackedOutside(d: Given, sources: set<nat>, reading: seq<nat>, searched: set<nat>,
                                          g: Snapshot, file: nat)
    requires Ready(d, g) && Stacked(d, reading, g) && FreshEmpty(d, reading, g) && Chained(d, reading, g)
    requires Flagged(d, sources, reading, searched, g) && Top(reading, file) && Ready(d, Close(d, g, file))
    ensures var less, h := reading[..|reading| - 1], Close(d, g, file);
      && Stacked(d, less, h) && FreshEmpty(d, less, h) && Flagged(d, sources, less, searched, h) && Chained(d, less, h)
  {
    var less, h := reading[..|reading| - 1], Close(d, g, file);
    assert reading == less + [file];
    FinishedByClose(d, g, file);
    assert file !in less;
    StackWithoutTop(d, less, g, file, h);
    FlaggedOutside(d, sources, less, searched, g, file, h);
    ChainedOutside(d, less, g, file);
  }

  lemma {:induction false} ChainedOutside(d: Given, less: seq<nat>, g: Snapshot, file: nat)
    requires Ready(d, g) && Chained(d, less + [file], g) && file < |d.files| && Ready(d, Close(d, g, file))
    ensures Chained(d, less, Close(d, g, file))
  {
    assert forall i :: 0 <= i < |less| ==> (less + [file])[i] == less[i];
  }

  lemma {:induction false} FinishedByClose(d: Given, g: Snapshot, file: nat)
    requires Ready(d, g) && file < |d.files|
    ensures var h := Close(d, g, file);
      forall i: nat :: i < |d.files| ==>
        h[d.files[i]].finished == (g[d.files[i]].finished || i == file) && h[d.files[i]].list == g[d.files[i]].list
  {
  }

  lemma {:induction false} StackWithoutTop(d: Given, less: seq<nat>, g: Snapshot, file: nat, h: Snapshot)
    requires Ready(d, g) && Stacked(d, less + [file], g) && FreshEmpty(d, less + [file], g) && Ready(d, h)
    requires file < |d.files| && file !in less
    requires forall i: nat :: i < |d.files| ==>
      h[d.files[i]].finished == (g[d.files[i]].finished || i == file) && h[d.files[i]].list == g[d.files[i]].list
    ensures Stacked(d, less, h) && FreshEmpty(d, less, h)
  {
    assert forall i :: 0 <= i < |less| ==> (less + [file])[i] == less[i] && less[i] in less;
  }

  lemma {:induction false} FlaggedOutside(d: Given, sources: set<nat>, less: seq<nat>, searched: set<nat>, g: Snapshot,
                                          file: nat, h: Snapshot)
    requires Ready(d, g) && Flagged(d, sources, less + [file], searched, g) && Ready(d, h)
    requires forall i: nat :: i < |d.files| ==> h[d.files[i]].finished == (g[d.files[i]].finished || i == file)
    ensures Flagged(d, sources, less, searched, h)
  {
    var reading := less + [file];
    assert reading[|less|] == file && forall i :: 0 <= i < |less| ==> reading[i] == less[i];
  }

  // ---------------------------------------------------------------- the program simulates the meaning

  lemma {:induction false} TablesSimulate(d: Given, sources: set<nat>, strict: bool) returns (sim: iset<Moment>)
    ensures forall p :: p in sim <==> Together(d, sources, strict, p)
    ensures Simulates(Tables(d), Ideals(d), sim, TableManners(d, sources, strict))
  {
    sim := iset p: Moment | Together(d, sources, strict, p);
    TestsKeepCoupled(d, sources, strict, sim);
    RecordsKeepCoupled(d, sources, strict, sim);
    UndefsKeepCoupled(d, sources, strict, sim);
    InclusionsKeepCoupled(d, sources, strict, sim);
  }

  lemma {:induction false} TestsKeepCoupled(d: Given, sources: set<nat>, strict: bool, sim: iset<Moment>)
    requires forall p :: p in sim <==> Together(d, sources, strict, p)
    ensures TestsAgree(Tables(d), Ideals(d), sim, TableManners(d, sources, strict))
  {
    forall p: Moment, root: nat, file: nat, q: Test |
      p in sim && AtFile(p, root, file) && TableManners(d, sources, strict).quiet(root, q, p.s)
      ensures Tables(d).test(root, q, p.s).0 == Ideals(d).test(root, q, p.t).0
      ensures With(p, Tables(d).test(root, q, p.s).1, p.t) in sim
    {
      TestStep(d, sources, strict, sim, p, root, q);
    }
  }

  lemma {:induction false} TestStep(d: Given, sources: set<nat>, strict: bool, sim: iset<Moment>, p: Moment, root: nat,
                                    q: Test)
    requires (forall p :: p in sim <==> Together(d, sources, strict, p)) && p in sim
    requires p.reading != [] && p.reading[0] == root && TableManners(d, sources, strict).quiet(root, q, p.s)
    ensures Tables(d).test(root, q, p.s).0 == Ideals(d).test(root, q, p.t).0
    ensures With(p, Tables(d).test(root, q, p.s).1, p.t) in sim
  {
    var r := Decide(d, p.s, root, q);
    TestKeepsCoupled(d, sources, strict, p, root, q);
    IsStage(d, sources, strict, sim, With(p, r.1, p.t));
    assert Tables(d).test(root, q, p.s) == r;
  }

  lemma {:induction false} IsStage(d: Given, sources: set<nat>, strict: bool, sim: iset<Moment>, p: Moment)
    requires (forall p :: p in sim <==> Together(d, sources, strict, p)) && Together(d, sources, strict, p)
    ensures p in sim
  {
  }

  lemma {:induction false} DefineStep(d: Given, sources: set<nat>, strict: bool, sim: iset<Moment>, p: Moment,
                                      root: nat, file: nat, text: string)
    requires (forall p :: p in sim <==> Together(d, sources, strict, p)) && p in sim && AtFile(p, root, file)
    ensures After(p, Defined(file, text), Tables(d).define(file, text, p.s), Ideals(d).define(file, text, p.t)) in sim
  {
    DefineKeepsCoupled(d, sources, strict, p, root, file, text);
    IsStage(d, sources, strict, sim,
            After(p, Defined(file, text), Record(d, p.s, file, text), IdealRecord(d, p.t, file, text)));
  }

  lemma {:induction false} CloseStep(d: Given, sources: set<nat>, strict: bool, sim: iset<Moment>, p: Moment,
                                     root: nat, file: nat)
    requires (forall p :: p in sim <==> Together(d, sources, strict, p)) && p in sim && AtFile(p, root, file)
    ensures Left(Tables(d), Ideals(d), p, file) in sim
  {
    CloseKeepsCoupled(d, sources, strict, p, root, file);
    IsStage(d, sources, strict, sim,
            Stage(p.reading[..|p.reading| - 1], p.searched, p.trace + [Finished(file)], Close(d, p.s, file),
                  IdealClose(d, p.t, file)));
  }

  lemma {:induction false} RecordsKeepCoupled(d: Given, sources: set<nat>, strict: bool, sim: iset<Moment>)
    requires forall p :: p in sim <==> Together(d, sources, strict, p)
    ensures DefinesAgree(Tables(d), Ideals(d), sim) && EndsAgree(Tables(d), Ideals(d), sim)
  {
    var k, m := Tables(d), Ideals(d);
    forall p: Moment, root: nat, file: nat, text: string | p in sim && AtFile(p, root, file)
      ensures After(p, Defined(file, text), k.define(file, text, p.s), m.define(file, text, p.t)) in sim
    {
      DefineStep(d, sources, strict, sim, p, root, file, text);
    }
    forall p: Moment, root: nat, file: nat | p in sim && AtFile(p, root, file)
      ensures Left(k, m, p, file) in sim
    {
      CloseStep(d, sources, strict, sim, p, root, file);
    }
  }

  lemma {:induction false} UndefsKeepCoupled(d: Given, sources: set<nat>, strict: bool, sim: iset<Moment>)
    requires forall p :: p in sim <==> Together(d, sources, strict, p)
    ensures UndefsAgree(Tables(d), Ideals(d), sim, TableManners(d, sources, strict))
  {
    var k, m, c := Tables(d), Ideals(d), TableManners(d, sources, strict);
    forall p: Moment, root: nat, file: nat, name: CString |
      p in sim && AtFile(p, root, file) && c.clean(root, name, p.s)
      ensures After(p, Undefined(name), k.undef(root, name, p.s), m.undef(root, name, p.t)) in sim
    {
      UndefStep(d, sources, strict, sim, p, root, name);
    }
  }

  lemma {:induction false} UndefStep(d: Given, sources: set<nat>, strict: bool, sim: iset<Moment>, p: Moment, root: nat,
                                     name: CString)
    requires (forall p :: p in sim <==> Together(d, sources, strict, p)) && p in sim
    requires p.reading != [] && p.reading[0] == root && TableManners(d, sources, strict).clean(root, name, p.s)
    ensures After(p, Undefined(name), Tables(d).undef(root, name, p.s), Ideals(d).undef(root, name, p.t)) in sim
  {
    UndefKeepsCoupled(d, sources, strict, p, root, name);
    IsStage(d, sources, strict, sim, After(p, Undefined(name), Remove(d, p.s, root, name), IdealRemove(p.t, name)));
  }

  lemma {:induction false} InclusionsKeepCoupled(d: Given, sources: set<nat>, strict: bool, sim: iset<Moment>)
    requires forall p :: p in sim <==> Together(d, sources, strict, p)
    ensures InclusionsAgree(Tables(d), Ideals(d), sim, TableManners(d, sources, strict))
  {
    var k, m, c := Tables(d), Ideals(d), TableManners(d, sources, strict);
    forall p: Moment, root: nat, file: nat, entry: nat |
      p in sim && AtFile(p, root, file) && c.includable(p.reading, entry, p.trace, p.s) && entry < MAXFILES
      ensures if entry in p.searched
              then After(p, Included(file, entry), k.includedBy(file, entry, p.s), m.includedBy(file, entry, p.t))
                in sim
              else Entered(k, m, p, file, entry) in sim
    {
      InclusionStep(d, sources, strict, sim, p, root, file, entry);
    }
  }

  lemma {:induction false} InclusionStep(d: Given, sources: set<nat>, strict: bool, sim: iset<Moment>, p: Moment,
                                         root: nat, file: nat, entry: nat)
    requires (forall p :: p in sim <==> Together(d, sources, strict, p)) && p in sim
    requires AtFile(p, root, file) && entry < MAXFILES
    requires TableManners(d, sources, strict).includable(p.reading, entry, p.trace, p.s)
    ensures var k, m := Tables(d), Ideals(d);
      if entry in p.searched
      then After(p, Included(file, entry), k.includedBy(file, entry, p.s), m.includedBy(file, entry, p.t)) in sim
      else Entered(k, m, p, file, entry) in sim
  {
    if entry in p.searched {
      LinkAgain(d, sources, strict, p, root, file, entry);
      IsStage(d, sources, strict, sim,
              After(p, Included(file, entry), Link(d, p.s, file, entry), IdealLink(d, p.t, file, entry)));
    } else {
      LinkEnters(d, sources, strict, p, root, file, entry);
      IsStage(d, sources, strict, sim, Entered(Tables(d), Ideals(d), p, file, entry));
    }
  }

  // ---------------------------------------------------------------- source after source

  // Nothing has been read; only the command line defines names.
  ghost predicate Untouched(d: Given, g: Snapshot) {
    Ready(d, g) && g.Keys == Records(d) && g[d.main].list == []
    && forall f :: f in g && f != d.main ==> g[f] == FileView([], [], [], false, false)
  }

  ghost function Blank(d: Given, g: Snapshot): Ideal
    requires d.main in g
  {
    Ideal(NamesOf(g[d.main].defs), map f | f in g :: NamesOf(g[f].defs), map f | f in g :: {},
          map[d.main := NamesOf(g[d.main].defs)], map[d.main := {}])
  }

  /** Before the first source the two environments belong together. */
  lemma {:induction false} StartsCoupled(d: Given, g: Snapshot)
    requires Untouched(d, g)
    ensures Together(d, {}, true, Stage([], {}, [], g, Blank(d, g)))
  {
    BlankMatches(d, g);
    BlankRemembers(d, g);
    assert Arranged(d, {}, [], {}, g);
  }

  lemma {:induction false} BlankRemembers(d: Given, g: Snapshot)
    requires Untouched(d, g)
    ensures Remembers(d, g, Blank(d, g)) && FreshBlank(d, [], g, Blank(d, g)) && AllGone(g, Blank(d, g))
    ensures Booked(d, [], Blank(d, g))
  {
    var t := Blank(d, g);
    forall z: CString ensures Visible(g, d.main, z) <==> z in t.left[d.main] { CommandLineSeesItself(d, g, z); }
  }

  lemma {:induction false} BlankMatches(d: Given, g: Snapshot)
    requires Untouched(d, g)
    ensures Matches(d, g, Blank(d, g))
  {
    var t := Blank(d, g);
    forall f | f in g ensures ChildrenOf(g[f]) == {} && Live(g[f]) == {} { }
    assert t.includes == (map f | f in g :: ChildrenOf(g[f]));
    assert Edges(g) == t.includes;
    assert forall f, z: CString :: f in g ==> (Defines(g[f], z) <==> z in t.defs[f]);
    forall f, z: CString | f in g ensures Visible(g, f, z) <==> Sees(t, f, z) {
      if Sees(t, f, z) {
        var u :| u in t.defs && Reach(t.includes, {}, f, u) && z in t.defs[u];
        assert Defines(g[u], z);
      }
      if Visible(g, f, z) {
        var u :| u in g && Reach(Edges(g), {}, f, u) && Defines(g[u], z);
        assert z in t.defs[u];
      }
    }
  }

  /** Between two sources they still do, and the next source can begin in any slot not used before. */
  lemma {:induction false} NextSourceStartsCoupled(d: Given, sources: set<nat>, strict: bool, searched: set<nat>,
                                                   trace: seq<Event>, g: Snapshot, t: Ideal, next: nat)
    requires Together(d, sources, strict, Stage([], searched, trace, g, t)) && next < |d.files|
    requires next !in sources && next !in searched
    ensures Together(d, sources + {next}, strict, Stage([next], searched, trace, g, t))
  {
    NextSourceIsArranged(d, sources, searched, g, next);
    NextSourceIsBlank(d, g, t, next);
  }

  lemma {:induction false} NextSourceIsArranged(d: Given, sources: set<nat>, searched: set<nat>, g: Snapshot, next: nat)
    requires Arranged(d, sources, [], searched, g) && next < |d.files| && next !in sources && next !in searched
    ensures Arranged(d, sources + {next}, [next], searched, g)
  {
    forall f, c | f in g && c in g[f].list ensures g[c].finished { assert !ReadFrom(d, [], f, c); }
  }

  lemma {:induction false} NextSourceIsBlank(d: Given, g: Snapshot, t: Ideal, next: nat)
    requires Ready(d, g) && FreshBlank(d, [], g, t)
    ensures FreshBlank(d, [next], g, t)
  {
  }

  // Every source is read calmly: no file includes one that is being read or a source, or a header that still
  // shows a name undefined since it was read, every test is quiet and every #undef tidy. With strict, every
  // #undef is clean.
  ghost predicate CalmSources(d: Given, strict: bool, trees: string -> Items, w: World<Snapshot>, sources: set<nat>,
                              paths: seq<string>)
    requires Sound(w)
    decreases |paths|
  {
    paths == [] || (
      && CalmSource(d, strict, trees, w, sources + {|w.entries|}, paths[0])
      && CalmSources(d, strict, trees, AfterSource(Tables(d), w, paths[0]), sources + {|w.entries|}, paths[1..]))
  }

  ghost predicate CalmSource(d: Given, strict: bool, trees: string -> Items, w: World<Snapshot>, sources: set<nat>,
                             path: string)
    requires Sound(w)
  {
    var u := NextSource(w, path);
    u.aborted || CalmRun(Tables(d), TableManners(d, sources, strict), trees, [u.root], u, u.root, trees(path))
  }

  // The same events, slots and flags.
  ghost predicate SameRecord(w: World<Snapshot>, v: World<Ideal>) {
    && v.root == w.root && v.entries == w.entries && v.searched == w.searched && v.soft == w.soft
    && v.trace == w.trace && v.aborted == w.aborted
  }

  ghost predicate InUse(sources: set<nat>, w: World<Snapshot>) {
    forall i :: i in sources ==> i < |w.entries|
  }

  // Where a source can begin.
  lemma {:induction false} NextStages(d: Given, sources: set<nat>, strict: bool, sim: iset<Moment>, more: iset<Moment>,
                                      next: nat)
    requires next < MAXFILES && next !in sources
    requires forall p :: p in sim <==> Together(d, sources, strict, p)
    requires forall p :: p in more <==> Together(d, sources + {next}, strict, p)
    ensures forall searched: set<nat>, trace: seq<Event>, g: Snapshot, t: Ideal ::
      Stage([], searched, trace, g, t) in sim && next !in searched ==> Stage([next], searched, trace, g, t) in more
  {
    forall searched: set<nat>, trace: seq<Event>, g: Snapshot, t: Ideal |
      Stage([], searched, trace, g, t) in sim && next !in searched
      ensures Stage([next], searched, trace, g, t) in more
    {
      NextSourceStartsCoupled(d, sources, strict, searched, trace, g, t, next);
      IsStage(d, sources + {next}, strict, more, Stage([next], searched, trace, g, t));
    }
  }

  lemma {:induction false} SourceKeepsAlike(d: Given, sources: set<nat>, strict: bool, trees: string -> Items,
                                            sim: iset<Moment>, more: iset<Moment>, w: World<Snapshot>, v: World<Ideal>,
                                            path: string)
    requires WellNested(Tables(d), trees) && Sound(w) && Sound(v) && Alike(sim, [], w, v)
    requires forall searched: set<nat>, trace: seq<Event>, g: Snapshot, t: Ideal ::
      Stage([], searched, trace, g, t) in sim && |w.entries| !in searched ==>
        Stage([|w.entries|], searched, trace, g, t) in more
    requires Simulates(Tables(d), Ideals(d), more, TableManners(d, sources, strict))
    requires CalmSource(d, strict, trees, w, sources, path) && !w.aborted
    ensures Alike(more, [], AfterSource(Tables(d), w, path), SourceMeaning(Ideals(d), trees, v, path))
  {
    var u, n := NextSource(w, path), NextSource(v, path);
    if !u.aborted {
      assert Alike(more, [u.root], u, n);
      FileMeaning(Tables(d), Ideals(d), more, TableManners(d, sources, strict), trees, u, n, u.root);
    }
  }

  lemma {:induction false} InUseAfter(d: Given, sources: set<nat>, w: World<Snapshot>, path: string)
    requires Sound(w) && InUse(sources, w)
    ensures |w.entries| !in sources && |w.entries| < MAXFILES
    ensures var r := AfterSource(Tables(d), w, path); r.aborted || InUse(sources + {|w.entries|}, r)
  {
  }

  // Between two sources: the same has been recorded, and tables and meaning belong together.
  ghost predicate InStep(d: Given, sources: set<nat>, strict: bool, w: World<Snapshot>, v: World<Ideal>) {
    && SameRecord(w, v) && FlagsInUse(w)
    && (w.aborted ||
        (InUse(sources, w) && Together(d, sources, strict, Stage([], w.searched, w.trace, w.env, v.env))))
  }

  // When the process has ended, nothing is read any more.
  lemma {:induction false} EndedStaysInStep(d: Given, trees: string -> Items, w: World<Snapshot>, v: World<Ideal>,
                                            paths: seq<string>)
    requires Sound(w) && Sound(v) && SameRecord(w, v) && FlagsInUse(w) && w.aborted
    ensures ReadSources(Tables(d), w, paths) == w && SourcesMeaning(Ideals(d), trees, v, paths) == v
    decreases |paths|
  {
    if paths != [] { EndedStaysInStep(d, trees, w, v, paths[1..]); }
  }

  lemma {:induction false} SourceStaysInStep(d: Given, strict: bool, trees: string -> Items, sources: set<nat>,
                                             w: World<Snapshot>, v: World<Ideal>, path: string)
    requires WellNested(Tables(d), trees) && Sound(w) && Sound(v) && InStep(d, sources, strict, w, v) && !w.aborted
    requires CalmSource(d, strict, trees, w, sources + {|w.entries|}, path)
    ensures InStep(d, sources + {|w.entries|}, strict, AfterSource(Tables(d), w, path),
                   SourceMeaning(Ideals(d), trees, v, path))
  {
    var sim := TablesSimulate(d, sources, strict);
    IsStage(d, sources, strict, sim, Stage([], w.searched, w.trace, w.env, v.env));
    var now := SourceSimulates(d, strict, trees, sources, sim, w, v, path);
    InUseAfter(d, sources, w, path);
  }

  lemma {:induction false} SourceSimulates(d: Given, strict: bool, trees: string -> Items, sources: set<nat>,
                                           sim: iset<Moment>, w: World<Snapshot>, v: World<Ideal>, path: string)
    returns (now: iset<Moment>)
    requires WellNested(Tables(d), trees) && Sound(w) && Sound(v) && Alike(sim, [], w, v) && InUse(sources, w)
    requires forall p :: p in sim <==> Together(d, sources, strict, p)
    requires CalmSource(d, strict, trees, w, sources + {|w.entries|}, path) && !w.aborted
    ensures forall p :: p in now ==> Together(d, sources + {|w.entries|}, strict, p)
    ensures Alike(now, [], AfterSource(Tables(d), w, path), SourceMeaning(Ideals(d), trees, v, path))
  {
    now := TablesSimulate(d, sources + {|w.entries|}, strict);
    InUseAfter(d, sources, w, path);
    NextStages(d, sources, strict, sim, now, |w.entries|);
    SourceKeepsAlike(d, sources + {|w.entries|}, strict, trees, sim, now, w, v, path);
  }

  // The first of some sources.
  function AndSource(sources: set<nat>, next: nat): set<nat> {
    sources + {next}
  }

  lemma {:induction false} FirstStaysInStep(d: Given, strict: bool, trees: string -> Items, sources: set<nat>,
                                            w: World<Snapshot>, v: World<Ideal>, paths: seq<string>)
    returns (r: World<Snapshot>, e: World<Ideal>, more: set<nat>)
    requires WellNested(Tables(d), trees) && Sound(w) && Sound(v) && InStep(d, sources, strict, w, v) && !w.aborted
    requires CalmSources(d, strict, trees, w, sources, paths) && paths != []
    ensures Sound(r) && Sound(e) && InStep(d, more, strict, r, e)
    ensures CalmSources(d, strict, trees, r, more, paths[1..])
    ensures ReadSources(Tables(d), w, paths) == ReadSources(Tables(d), r, paths[1..])
    ensures SourcesMeaning(Ideals(d), trees, v, paths) == SourcesMeaning(Ideals(d), trees, e, paths[1..])
  {
    r, e := AfterSource(Tables(d), w, paths[0]), SourceMeaning(Ideals(d), trees, v, paths[0]);
    more := AndSource(sources, |w.entries|);
    SourceStaysInStep(d, strict, trees, sources, w, v, paths[0]);
  }

  lemma {:induction false} SourcesStayInStep(d: Given, strict: bool, trees: string -> Items, sources: set<nat>,
                                             w: World<Snapshot>, v: World<Ideal>, paths: seq<string>)
    returns (read: set<nat>)
    requires WellNested(Tables(d), trees) && Sound(w) && Sound(v) && InStep(d, sources, strict, w, v)
    requires CalmSources(d, strict, trees, w, sources, paths)
    ensures InStep(d, read, strict, ReadSources(Tables(d), w, paths), SourcesMeaning(Ideals(d), trees, v, paths))
    decreases |paths|
  {
    read := sources;
    if w.aborted {
      EndedStaysInStep(d, trees, w, v, paths);
    } else if paths != [] {
      var r, e, more := FirstStaysInStep(d, strict, trees, sources, w, v, paths);
      read := SourcesStayInStep(d, strict, trees, more, r, e, paths[1..]);
    }
  }

  /** Over the program's own tables, reading any list of well-nested sources one after the other records exactly
      what the meaning records, if in each run no file includes one that is being read or a source, or a header
      that still shows a name undefined since it was read, every test and every lookup of an #include line is
      quiet, and every #undef hides no other name. The names seen in the end are those of the meaning; a
      header may also show some that have been undefined, but not if every #undef was clean. */
  lemma {:induction false} TablesGiveTheMeaning(d: Given, strict: bool, trees: string -> Items, g: Snapshot,
                                                paths: seq<string>)
    requires WellNested(Tables(d), trees) && Untouched(d, g)
    requires CalmSources(d, strict, trees, World(0, [], {}, {}, g, [], false), {}, paths)
    ensures var r := ReadSources(Tables(d), World(0, [], {}, {}, g, [], false), paths);
      var e := SourcesMeaning(Ideals(d), trees, World(0, [], {}, {}, Blank(d, g), [], false), paths);
      && SameRecord(r, e)
      && (!r.aborted ==> forall f, z: CString :: f in r.env ==>
            && (Sees(e.env, f, z) ==> Visible(r.env, f, z))
            && (Visible(r.env, f, z) ==> Sees(e.env, f, z) || (!strict && Undone(e.env, f, z))))
  {
    var read := RunsInStep(d, strict, trees, g, paths);
  }

  // The whole run, from the start.
  lemma {:induction false} RunsInStep(d: Given, strict: bool, trees: string -> Items, g: Snapshot, paths: seq<string>)
    returns (read: set<nat>)
    requires WellNested(Tables(d), trees) && Untouched(d, g)
    requires CalmSources(d, strict, trees, World(0, [], {}, {}, g, [], false), {}, paths)
    ensures InStep(d, read, strict, ReadSources(Tables(d), World(0, [], {}, {}, g, [], false), paths),
                   SourcesMeaning(Ideals(d), trees, World(0, [], {}, {}, Blank(d, g), [], false), paths))
  {
    var w, v := World(0, [], {}, {}, g, [], false), World(0, [], {}, {}, Blank(d, g), [], false);
    StartsCoupled(d, g);
    read := SourcesStayInStep(d, strict, trees, {}, w, v, paths);
  }

  // ---------------------------------------------------------------- which tests are quiet, which undefs clean

  lemma {:induction false} NoCycleIsTame(d: Given, reading: seq<nat>, g: Snapshot, e: map<IncList, set<IncList>>)
    requires Ready(d, g) && Stacked(d, reading, g) && ChildrenRead(d, reading, g)
    requires e == (map f | f in g :: ChildrenOf(g[f])) && NoCycle(e)
    ensures Acyclic(g) && FinishedClosed(g)
  {
    forall f, c | f in g && c in Live(g[f]) ensures !Reach(Edges(g), {}, c, f) {
      assert c in e[f];
      if Reach(Edges(g), {}, c, f) { ReachMonotone(Edges(g), e, {}, {}, c, f); }
    }
  }

  lemma {:induction false} CoupledIsTame(d: Given, sources: set<nat>, p: Moment)
    requires Coupled(d, sources, p)
    ensures Acyclic(p.s) && FinishedClosed(p.s)
  {
    NoCycleIsTame(d, p.reading, p.s, p.t.includes);
  }

  lemma {:induction false} LookUpKeepsExactly(d: Given, g: Snapshot, root: nat, name: CString)
    requires Ready(d, g) && Acyclic(g) && FinishedClosed(g) && root < |d.files|
    ensures KeepsVisible(g, LookUp(d, g, root, name).1) <==>
      Defines(g[d.main], name) || H.LosesNothing(g, d.files[root], name)
  {
    H.LookupKeepsViewsExactlyWhen(g, d.files[root], name);
  }

  // Each lookup in turn finds the name on the command line or loses nothing on its way.
  ghost predicate QuietInTurn(d: Given, g: Snapshot, root: nat, names: seq<CString>) {
    names == [] ||
    (&& Ready(d, g) && root < |d.files|
     && (Defines(g[d.main], names[0]) || H.LosesNothing(g, d.files[root], names[0]))
     && QuietInTurn(d, LookUp(d, g, root, names[0]).1, root, names[1..]))
  }

  lemma {:induction false} LookUpsKeepExactly(d: Given, g: Snapshot, root: nat, names: seq<CString>)
    requires Ready(d, g) && g[d.main].list == [] && Acyclic(g) && FinishedClosed(g) && root < |d.files|
    ensures KeepsVisible(g, LookUps(d, g, root, names).1) <==> QuietInTurn(d, g, root, names)
    decreases |names|
  {
    if names != [] {
      var h := LookUp(d, g, root, names[0]).1;
      LookUpSettles(d, g, root, names[0]);
      SettledStaysReady(d, g, h);
      ShapeKeepsHypotheses(g, h);
      LookUpKeepsExactly(d, g, root, names[0]);
      LookUpsKeepExactly(d, h, root, names[1..]);
      LookUpsSettle(d, h, root, names[1..]);
      Squeeze(g, h, LookUps(d, h, root, names[1..]).1);
    }
  }

  /** A test, of one name or of an expression that asks for any number of them, is quiet exactly when each of its
      lookups in turn finds its name on the command line or loses nothing on its way. */
  lemma {:induction false} QuietExactly(d: Given, sources: set<nat>, p: Moment, root: nat, q: Test)
    requires Coupled(d, sources, p) && root < |d.files|
    ensures Quiet(d, root, q, p.s) <==> QuietInTurn(d, p.s, root, NamesAsked(d, q))
  {
    CoupledIsTame(d, sources, p);
    LookUpsKeepExactly(d, p.s, root, NamesAsked(d, q));
  }

  /** In particular names that are not visible can be tested for freely. */
  lemma {:induction false} UnseenIsQuiet(d: Given, sources: set<nat>, p: Moment, root: nat, q: Test)
    requires Coupled(d, sources, p) && root < |d.files|
    requires forall name :: name in NamesAsked(d, q) ==> !Visible(p.s, d.files[root], name)
    ensures Quiet(d, root, q, p.s)
  {
    CoupledIsTame(d, sources, p);
    UnseenInTurn(d, p.s, root, NamesAsked(d, q));
    LookUpsKeepExactly(d, p.s, root, NamesAsked(d, q));
  }

  lemma {:induction false} UnseenInTurn(d: Given, g: Snapshot, root: nat, names: seq<CString>)
    requires Ready(d, g) && g[d.main].list == [] && root < |d.files|
    requires forall name :: name in names ==> !Visible(g, d.files[root], name)
    ensures QuietInTurn(d, g, root, names)
    decreases |names|
  {
    if names != [] {
      var h := LookUp(d, g, root, names[0]).1;
      LookUpSettles(d, g, root, names[0]);
      SettledStaysReady(d, g, h);
      assert names[0] in names;
      MissLosesNothing(g, d.files[root], names[0]);
      UnseenInTurn(d, h, root, names[1..]);
    }
  }

  lemma {:induction false} MissLosesNothing(g: Snapshot, x: IncList, name: CString)
    requires WellFormed(g) && x in g && !Visible(g, x, name)
    ensures H.LosesNothing(g, x, name)
  {
    H.GoesNowhere(g, x, name);
    H.WayEnds(g, x, name);
  }

  /** An #undef is clean exactly when each of its lookups in turn finds the name on the command line or loses
      nothing on its way, and the last leaves no table with the name. */
  lemma {:induction false} CleanUndefExactly(d: Given, sources: set<nat>, p: Moment, root: nat, name: CString)
    requires Coupled(d, sources, p) && root < |d.files|
    ensures CleanUndef(d, root, name, p.s) <==> C.LosesNothingInTurn(p.s, d.main, d.files[root], name)
  {
    CoupledIsTame(d, sources, p);
    C.CleanWhenNothingIsLost(p.s, d.main, d.files[root], name);
  }

  /** In particular a name is undefined cleanly if, besides the command line and the source, only headers see it
      that have been read, have nothing left to merge and are included by the source itself. */
  lemma {:induction false} LeafUndefIsClean(d: Given, sources: set<nat>, p: Moment, root: nat, name: CString)
    requires Coupled(d, sources, p) && root < |d.files|
    requires C.OnlyLeavesSee(p.s, d.main, d.files[root], name)
    ensures CleanUndef(d, root, name, p.s)
  {
    CoupledIsTame(d, sources, p);
    assert Live(p.s[d.main]) == {};
    C.LeafNamesAreClean(p.s, d.main, d.files[root], name);
  }

  // ---------------------------------------------------------------- behind an #include line

  /** Nothing is asked of the lookups of an #include line whose text is not the name of a symbol. */
  lemma {:induction false} PlainIncludeIsCalm(d: Given, sources: set<nat>, strict: bool, reading: seq<nat>,
                                              w: World<Snapshot>, t: Ideal, rest: CString, values: seq<CString>)
    requires Sound(w) && Coupled(d, sources, Stage(reading, w.searched, w.trace, w.env, t)) && w.root < |d.files|
    requires !Defines(w.env[d.main], rest) && !Visible(w.env, d.files[w.root], rest)
    ensures CalmExpand(Tables(d), TableManners(d, sources, strict), w, rest, values)
    ensures Expand(Tables(d), w, rest, values).text == rest && !Expand(Tables(d), w, rest, values).soft
  {
    var p := Stage(reading, w.searched, w.trace, w.env, t);
    UnseenIsQuiet(d, sources, p, w.root, Present(rest));
    LookUpSettles(d, w.env, w.root, rest);
    OneLookUp(d, w.env, w.root, rest);
    assert !Ask(Tables(d), w, Present(rest)).0;
  }

  lemma {:induction false} OneLookUp(d: Given, g: Snapshot, root: nat, name: CString)
    ensures Decide(d, g, root, Present(name)) == LookUp(d, g, root, name)
  {
    AsksForOne(d, g, root, name);
  }

  // The last text looked up is not the name of a symbol.
  ghost predicate EndsInMiss(k: Kit<Snapshot>, w: World<Snapshot>, text: CString, values: seq<CString>)
    requires Sound(w)
    decreases |values|
  {
    var a := Ask(k, w, Present(text));
    !a.0 || (values != [] && EndsInMiss(k, a.1, values[0], values[1..]))
  }

  /** Behind the lookups that an #include line makes, the source reaches no file that has been read; whether the line
      names a header, and whether that is found, comes later. */
  lemma {:induction false} IncludeLineDrains(d: Given, w: World<Snapshot>, rest: CString, values: seq<CString>)
    requires Sound(w) && !w.aborted && Ready(d, w.env) && w.env[d.main].list == [] && w.root < |d.files|
    requires EndsInMiss(Tables(d), w, rest, values)
    ensures Ready(d, Expand(Tables(d), w, rest, values).w.env)
    ensures Drained(Expand(Tables(d), w, rest, values).w.env, d.files[w.root])
    decreases |values|
  {
    var a := Ask(Tables(d), w, Present(rest));
    OneLookUp(d, w.env, w.root, rest);
    LookUpSettles(d, w.env, w.root, rest);
    SettledStaysReady(d, w.env, a.1.env);
    if a.0 {
      IncludeLineDrains(d, a.1, values[0], values[1..]);
    } else {
      MissDrains(w.env, d.files[w.root], rest);
    }
  }

  /** So is a source that has not included anything. */
  lemma {:induction false} NewSourceIsDrained(d: Given, g: Snapshot, root: nat)
    requires Ready(d, g) && root < |d.files| && g[d.files[root]].list == []
    ensures Drained(g, d.files[root])
  {
    assert Live(g[d.files[root]]) == {};
    OnlySelf(Edges(g), {}, d.files[root]);
  }

  /** Then tests change nothing at all. */
  lemma {:induction false} DrainedTestsChangeNothing(d: Given, g: Snapshot, root: nat, q: Test)
    requires Ready(d, g) && root < |d.files| && Drained(g, d.files[root])
    ensures Decide(d, g, root, q).1 == g && Quiet(d, root, q, g)
  {
    DrainedLookUps(d, g, root, NamesAsked(d, q));
  }

  lemma {:induction false} DrainedLookUps(d: Given, g: Snapshot, root: nat, names: seq<CString>)
    requires Ready(d, g) && root < |d.files| && Drained(g, d.files[root])
    ensures LookUps(d, g, root, names).1 == g
    decreases |names|
  {
    if names != [] {
      DrainedLookup(g, d.files[root], names[0]);
      DrainedLookUps(d, g, root, names[1..]);
    }
  }

  /** An #undef is clean exactly when no table has the name but that of the command line and those of the files
      reached, which are all being read. */
  lemma {:induction false} DrainedUndefExactly(d: Given, sources: set<nat>, p: Moment, root: nat, name: CString)
    requires Coupled(d, sources, p) && root < |d.files| && Drained(p.s, d.files[root])
    requires !p.s[d.files[root]].finished
    ensures CleanUndef(d, root, name, p.s) <==> HeldInReach(p.s, d.main, d.files[root], name)
    ensures forall f :: f in p.s && Reach(Edges(p.s), {}, d.files[root], f) ==> !p.s[f].finished
  {
    DrainedUndefIsCleanExactlyWhen(p.s, d.main, d.files[root], name);
    forall f | f in p.s && Reach(Edges(p.s), {}, d.files[root], f) ensures !p.s[f].finished {
      DrainedReachesUnread(p.s, d.files[root], f);
    }
  }

  lemma {:induction false} DrainedReachesUnread(g: Snapshot, x: IncList, f: IncList)
    requires WellFormed(g) && x in g && Drained(g, x) && !g[x].finished && Reach(Edges(g), {}, x, f)
    ensures f in g && !g[f].finished
  {
    var n: nat :| Path(Edges(g), {}, x, f, n);
    ReachSelf(Edges(g), {}, x);
    UnreadAlong(g, x, x, f, n);
  }

  lemma {:induction false} UnreadAlong(g: Snapshot, x: IncList, y: IncList, f: IncList, n: nat)
    requires WellFormed(g) && x in g && Drained(g, x) && Reach(Edges(g), {}, x, y)
    requires y in g && !g[y].finished && Path(Edges(g), {}, y, f, n)
    ensures f in g && !g[f].finished
    decreases n
  {
    if n > 0 {
      var z :| z in Edges(g)[y] && Path(Edges(g), {}, z, f, n - 1);
      assert Spent(g, y) && z in Live(g[y]);
      ReachSelf(Edges(g), {}, z);
      ReachVia(Edges(g), {}, y, z, z);
      ReachTransitive(Edges(g), {}, x, y, z);
      UnreadAlong(g, x, z, f, n - 1);
    }
  }

  /** Clean or not, it takes nothing from a header that has been read. */
  lemma {:induction false} UndefSparesHeaders(d: Given, sources: set<nat>, p: Moment, root: nat, name: CString,
                                              f: IncList)
    requires Coupled(d, sources, p) && root < |d.files| && Drained(p.s, d.files[root])
    requires !p.s[d.files[root]].finished && f in p.s && f != d.main && p.s[f].finished
    ensures forall z: CString :: Visible(Remove(d, p.s, root, name), f, z) <==> Visible(p.s, f, z)
  {
    var g, x := p.s, d.files[root];
    forall z: CString ensures Visible(Remove(d, g, root, name), f, z) <==> Visible(g, f, z) {
      DrainedUndefLeaves(g, d.main, x, name, f, z);
      if Visible(g, f, name) {
        var u :| u in g && Reach(Edges(g), {}, f, u) && Defines(g[u], name);
        HeaderOutOfReach(d, sources, p, root, f, u);
        assert SeenElsewhere(g, d.main, x, f, name);
      }
    }
  }

  lemma {:induction false} HeaderOutOfReach(d: Given, sources: set<nat>, p: Moment, root: nat, f: IncList, u: IncList)
    requires Coupled(d, sources, p) && root < |d.files| && Drained(p.s, d.files[root])
    requires !p.s[d.files[root]].finished && f in p.s && f != d.main && p.s[f].finished && Reach(Edges(p.s), {}, f, u)
    ensures u != d.main && !Reach(Edges(p.s), {}, d.files[root], u)
  {
    var g, e := p.s, p.t.includes;
    ReachMonotone(Edges(g), e, {}, {}, f, u);
    var n: nat :| Path(e, {}, f, u, n);
    ReadReachesRead(d, sources, p.reading, p.searched, g, e, f, u, n);
    if Reach(Edges(g), {}, d.files[root], u) { DrainedReachesUnread(g, d.files[root], u); }
    NeverTheCommandLine(d, p.reading, g, e, f, u, n);
  }

  lemma {:induction false} NeverTheCommandLine(d: Given, reading: seq<nat>, g: Snapshot, e: map<IncList, set<IncList>>,
                                               f: IncList, u: IncList, n: nat)
    requires Ready(d, g) && ChildrenRead(d, reading, g) && e == (map f | f in g :: ChildrenOf(g[f]))
    requires f != d.main && Path(e, {}, f, u, n)
    ensures u != d.main
    decreases n
  {
    if n > 0 {
      var z :| z in e[f] && Path(e, {}, z, u, n - 1);
      assert z in g[f].list;
      NeverTheCommandLine(d, reading, g, e, z, u, n - 1);
    }
  }
}
