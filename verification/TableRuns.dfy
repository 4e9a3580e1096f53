/** Whole runs over the program's own tables on which it records something else than section 6.10.1 of ISO/IEC
    9899:1999 demands: a test that makes a later one fail, an #undef in one source that reaches into the
    next, and an #include line that keeps an #undef from reaching the header it should. */
module TableRuns {
  import opened Names
  import opened SymbolTable
  import opened Graph
  import opened Lookup
  import opened Visibility
  import opened MissedLookups
  import C = CleanUndefs
  import U = Undefinition
  import H = HitLookups
  import opened Directives
  import opened DirectiveTrees
  import opened StandardMeaning
  import opened TableMeaning
  import opened DrainedSources

  ghost function Start<S>(env: S): World<S> {
    World(0, [], {}, {}, env, [], false)
  }

  // ---------------------------------------------------------------- opening a header

  // The name in the rest of an #include line.
  function HeaderName(rest: string): string {
    match HeaderIn(rest)
    case None => ""
    case Some(header) => header.0
  }

  // Where the header of a line is looked for, beside the file with the line or not.
  function Candidates(paths: (string, string, bool) -> seq<string>, file: string, rest: string): seq<string> {
    match HeaderIn(rest)
    case None => []
    case Some(header) => paths(file, header.0, header.1)
  }

  // What a header is entered with when it is found under a name for the first time.
  ghost function Inside<S>(k: Kit<S>, w: World<S>, file: nat, name: string, path: string): World<S> {
    var n := |w.entries|;
    World(w.root, w.entries + [Entry(path, name)], w.searched + {n}, w.soft, k.includedBy(file, n, w.env),
          w.trace + [Included(file, n)] + [Opened(n)], false)
  }

  // The lookup of the text finds no symbol and leaves the environment as it is.
  ghost predicate Unnamed<S>(k: Kit<S>, root: nat, text: CString, env: S) {
    k.test(root, Present(text), env) == (false, env)
  }

  ghost predicate IsNew<S>(k: Kit<S>, w: World<S>, file: nat, rest: CString, path: string) {
    && Sound(w) && !w.aborted && file < |w.entries| < MAXFILES - 2 && |w.entries| !in w.searched
    && HeaderIn(rest).Some? && (forall i :: 0 <= i < |w.entries| ==> w.entries[i].incstring != HeaderName(rest))
    && Candidates(k.paths, w.entries[file].file, rest) == [path] && k.present(path)
    && Unnamed(k, w.root, rest, w.env)
  }

  lemma {:induction false} NameIsRead<S>(k: Kit<S>, w: World<S>, file: nat, rest: CString)
    requires Sound(w) && !w.aborted && Unnamed(k, w.root, rest, w.env)
    ensures ReadName(k, w, file, rest, []) == (w, HeaderIn(rest)) == NameMeaning(k, w, file, rest, [])
  {
    assert Ask(k, w, Present(rest)) == (false, w);
  }

  lemma {:induction false} FindsNew<S>(k: Kit<S>, w: World<S>, file: nat, rest: CString, path: string)
    requires IsNew(k, w, file, rest, path)
    ensures Find(k, w, file, HeaderIn(rest)) ==
      (w.(entries := w.entries + [Entry(path, HeaderName(rest))]), Some(|w.entries|))
  {
    assert FirstCached(w, HeaderName(rest), 0).None?;
    assert FirstPresent(k.present, [path], 0) == Some(0);
  }

  lemma {:induction false} RunsNew<S>(k: Kit<S>, trees: string -> Items, w: World<S>, file: nat, rest: CString,
                                      path: string)
    requires IsNew(k, w, file, rest, path)
    ensures var u := Inside(k, w, file, HeaderName(rest), path);
      RunAction(k, trees, w, file, Include(rest, [])) ==
        Finish(k, Run(k, trees, u, |w.entries|, trees(path)), |w.entries|)
  {
    NameIsRead(k, w, file, rest);
    FindsNew(k, w, file, rest, path);
    var found := Find(k, w, file, HeaderIn(rest)).0;
    assert Enter(k, found, file, |w.entries|) == Inside(k, w, file, HeaderName(rest), path);
  }

  lemma {:induction false} MeansNew<S>(k: Kit<S>, trees: string -> Items, w: World<S>, file: nat, rest: CString,
                                       path: string)
    requires IsNew(k, w, file, rest, path)
    ensures var u := Inside(k, w, file, HeaderName(rest), path);
      ActionMeaning(k, trees, w, file, Include(rest, [])) ==
        Finish(k, Meaning(k, trees, u, |w.entries|, trees(path)), |w.entries|)
  {
    NameIsRead(k, w, file, rest);
    FindsNew(k, w, file, rest, path);
    var found := Find(k, w, file, HeaderIn(rest)).0;
    assert Enter(k, found, file, |w.entries|) == Inside(k, w, file, HeaderName(rest), path);
  }

  // A header of one #define: the events, and the environment.
  ghost function Events(file: nat, n: nat, text: string): seq<Event> {
    [Included(file, n), Opened(n), Defined(n, text), Finished(n)]
  }

  ghost function WithLeaf<S>(k: Kit<S>, env: S, file: nat, n: nat, text: string): S {
    k.finish(n, k.define(n, text, k.includedBy(file, n, env)))
  }

  ghost function BehindLeaf<S>(k: Kit<S>, w: World<S>, file: nat, name: string, path: string, text: string): World<S> {
    var n := |w.entries|;
    World(w.root, w.entries + [Entry(path, name)], w.searched + {n}, w.soft, WithLeaf(k, w.env, file, n, text),
          w.trace + Events(file, n, text), false)
  }

  function LeafText(text: string): Items {
    Leaf(Define(text), Nil)
  }

  lemma {:induction false} RunsLeaf<S>(k: Kit<S>, trees: string -> Items, w: World<S>, file: nat, rest: CString,
                                       path: string, text: string)
    requires IsNew(k, w, file, rest, path) && trees(path) == LeafText(text)
    ensures RunAction(k, trees, w, file, Include(rest, [])) ==
      BehindLeaf(k, w, file, HeaderName(rest), path, text)
  {
    RunsNew(k, trees, w, file, rest, path);
    var n, u := |w.entries|, Inside(k, w, file, HeaderName(rest), path);
    var v := DefineIn(k, u, n, text);
    assert Run(k, trees, u, n, LeafText(text)) == v by {
      assert RunAction(k, trees, u, n, Define(text)) == v;
      assert Run(k, trees, v, n, Nil) == v;
    }
    assert Finish(k, v, n).trace == w.trace + Events(file, n, text);
  }

  lemma {:induction false} MeansLeaf<S>(k: Kit<S>, trees: string -> Items, w: World<S>, file: nat, rest: CString,
                                        path: string, text: string)
    requires IsNew(k, w, file, rest, path) && trees(path) == LeafText(text)
    ensures ActionMeaning(k, trees, w, file, Include(rest, [])) ==
      BehindLeaf(k, w, file, HeaderName(rest), path, text)
  {
    MeansNew(k, trees, w, file, rest, path);
    var n, u := |w.entries|, Inside(k, w, file, HeaderName(rest), path);
    var v := DefineIn(k, u, n, text);
    assert Meaning(k, trees, u, n, LeafText(text)) == v by {
      assert ActionMeaning(k, trees, u, n, Define(text)) == v;
      assert Meaning(k, trees, v, n, Nil) == v;
    }
    assert Finish(k, v, n).trace == w.trace + Events(file, n, text);
  }

  // A header of one #define and one #include of such a header.
  function ChainText(text: string, rest: CString): Items {
    Leaf(Define(text), Leaf(Include(rest, []), Nil))
  }

  // The source includes the header c, which defines one name and includes the header e, which defines
  // another; c and e are the rests of the two lines.
  datatype Chain = Chain(source: string, c: CString, pathC: string, textC: string, e: CString, pathE: string,
                         textE: string)

  ghost predicate Laid<S>(k: Kit<S>, trees: string -> Items, n: Chain) {
    && HeaderIn(n.c).Some? && HeaderIn(n.e).Some?
    && Candidates(k.paths, n.source, n.c) == [n.pathC] && k.present(n.pathC)
    && Candidates(k.paths, n.pathC, n.e) == [n.pathE] && k.present(n.pathE)
    && n.source != HeaderName(n.c) && n.source != HeaderName(n.e) && HeaderName(n.c) != HeaderName(n.e)
    && trees(n.pathC) == ChainText(n.textC, n.e) && trees(n.pathE) == LeafText(n.textE)
  }

  // Neither of the two rests of a line is the name of a symbol.
  ghost predicate NoSymbols<S>(k: Kit<S>, env: S, n: Chain) {
    Unnamed(k, 0, n.c, env) && Unnamed(k, 0, n.e, k.define(1, n.textC, k.includedBy(0, 1, env)))
  }

  ghost function First<S>(env: S, source: string): World<S> {
    World(0, [Entry(source, source)], {}, {}, env, [], false)
  }

  ghost function WithChain<S>(k: Kit<S>, env: S, n: Chain): S {
    k.finish(1, WithLeaf(k, k.define(1, n.textC, k.includedBy(0, 1, env)), 1, 2, n.textE))
  }

  function ChainEvents(n: Chain): seq<Event> {
    [Included(0, 1), Opened(1), Defined(1, n.textC), Included(1, 2), Opened(2), Defined(2, n.textE), Finished(2),
     Finished(1)]
  }

  ghost function BehindChain<S>(k: Kit<S>, env: S, n: Chain): World<S> {
    World(0, [Entry(n.source, n.source), Entry(n.pathC, HeaderName(n.c)), Entry(n.pathE, HeaderName(n.e))], {1, 2}, {},
          WithChain(k, env, n), ChainEvents(n), false)
  }

  // Inside c, behind its #define.
  ghost function InsideC<S>(k: Kit<S>, env: S, n: Chain): World<S> {
    World(0, [Entry(n.source, n.source), Entry(n.pathC, HeaderName(n.c))], {1}, {},
          k.define(1, n.textC, k.includedBy(0, 1, env)), [Included(0, 1), Opened(1), Defined(1, n.textC)], false)
  }

  lemma {:induction false} EntersC<S>(k: Kit<S>, trees: string -> Items, env: S, n: Chain)
    requires Laid(k, trees, n) && NoSymbols(k, env, n)
    ensures IsNew(k, First(env, n.source), 0, n.c, n.pathC)
    ensures DefineIn(k, Inside(k, First(env, n.source), 0, HeaderName(n.c), n.pathC), 1, n.textC) == InsideC(k, env, n)
    ensures IsNew(k, InsideC(k, env, n), 1, n.e, n.pathE)
    ensures Finish(k, BehindLeaf(k, InsideC(k, env, n), 1, HeaderName(n.e), n.pathE, n.textE), 1) ==
      BehindChain(k, env, n)
  {
    var w := InsideC(k, env, n);
    assert forall i :: 0 <= i < |w.entries| ==> w.entries[i].incstring != HeaderName(n.e);
    assert Finish(k, BehindLeaf(k, w, 1, HeaderName(n.e), n.pathE, n.textE), 1).trace == ChainEvents(n);
    assert {1} + {2} == {1, 2};
  }

  lemma {:induction false} RunsChain<S>(k: Kit<S>, trees: string -> Items, env: S, n: Chain)
    requires Laid(k, trees, n) && NoSymbols(k, env, n)
    ensures RunAction(k, trees, First(env, n.source), 0, Include(n.c, [])) == BehindChain(k, env, n)
  {
    var w := First(env, n.source);
    EntersC(k, trees, env, n);
    RunsNew(k, trees, w, 0, n.c, n.pathC);
    var u, v := Inside(k, w, 0, HeaderName(n.c), n.pathC), InsideC(k, env, n);
    RunsLeaf(k, trees, v, 1, n.e, n.pathE, n.textE);
    var r := BehindLeaf(k, v, 1, HeaderName(n.e), n.pathE, n.textE);
    assert Run(k, trees, u, 1, ChainText(n.textC, n.e)) == r by {
      var t := Leaf(Include(n.e, []), Nil);
      assert RunAction(k, trees, u, 1, Define(n.textC)) == v;
      assert Run(k, trees, r, 1, Nil) == r;
      assert Run(k, trees, v, 1, t) == r;
    }
  }

  lemma {:induction false} MeansChain<S>(k: Kit<S>, trees: string -> Items, env: S, n: Chain)
    requires Laid(k, trees, n) && NoSymbols(k, env, n)
    ensures ActionMeaning(k, trees, First(env, n.source), 0, Include(n.c, [])) == BehindChain(k, env, n)
  {
    var w := First(env, n.source);
    EntersC(k, trees, env, n);
    MeansNew(k, trees, w, 0, n.c, n.pathC);
    var u, v := Inside(k, w, 0, HeaderName(n.c), n.pathC), InsideC(k, env, n);
    MeansLeaf(k, trees, v, 1, n.e, n.pathE, n.textE);
    var r := BehindLeaf(k, v, 1, HeaderName(n.e), n.pathE, n.textE);
    assert Meaning(k, trees, u, 1, ChainText(n.textC, n.e)) == r by {
      var t := Leaf(Include(n.e, []), Nil);
      assert ActionMeaning(k, trees, u, 1, Define(n.textC)) == v;
      assert Meaning(k, trees, r, 1, Nil) == r;
      assert Meaning(k, trees, v, 1, t) == r;
    }
  }

  // One source.
  lemma {:induction false} RunsOneSource<S>(k: Kit<S>, trees: string -> Items, env: S, source: string)
    requires WellNested(k, trees)
    ensures var w := First(env, source);
      ReadSources(k, Start(env), [source]) == Finish(k, Run(k, trees, w, 0, trees(source)), 0)
  {
    var w := First(env, source);
    assert NextSource(Start(env), source) == w;
    assert [source][1..] == [];
    ReadsFile(k, trees, w, 0);
  }

  lemma {:induction false} MeansOneSource<S>(k: Kit<S>, trees: string -> Items, env: S, source: string)
    ensures var w := First(env, source);
      SourcesMeaning(k, trees, Start(env), [source]) == Finish(k, Meaning(k, trees, w, 0, trees(source)), 0)
  {
    assert NextSource(Start(env), source) == First(env, source);
    assert [source][1..] == [];
  }

  // ---------------------------------------------------------------- texts that are no symbols

  lemma {:induction false} TablesUnnamed(d: Given, g: Snapshot, root: nat, text: CString)
    requires Ready(d, g) && g[d.main].list == [] && root < |d.files| && Drained(g, d.files[root])
    requires !Defines(g[d.main], text) && !Visible(g, d.files[root], text)
    ensures Unnamed(Tables(d), root, text, g)
  {
    var r := LookUp(d, g, root, text);
    DrainedLookup(g, d.files[root], text);
    LookUpSettles(d, g, root, text);
    assert LookUps(d, g, root, [text]) == ([false], g) by {
      assert [text][1..] == [] && LookUps(d, r.1, root, []) == ([], g) && [false] + [] == [false];
    }
  }

  lemma {:induction false} IdealsUnnamed(d: Given, t: Ideal, root: nat, text: CString)
    requires text !in t.command && forall u :: u in t.defs ==> text !in t.defs[u]
    ensures Unnamed(Ideals(d), root, text, t)
  {
    assert Answers(d, t, root, [text]) == [false] by {
      assert [text][1..] == [] && Answers(d, t, root, []) == [];
    }
  }

  /** #include of a symbol that the command line defines as a name in quotes finds that name, to be looked for
      beside the including file, and marks the including file as one that includes through a symbol. */
  lemma {:induction false} SymbolNamesHeader(d: Given, w: World<Snapshot>, file: nat, symbol: CString, name: string)
    requires Sound(w) && !w.aborted && Ready(d, w.env) && w.env[d.main].list == [] && w.root < |d.files|
    requires Drained(w.env, d.files[w.root]) && Defines(w.env[d.main], symbol) && '"' !in name && '\0' !in name
    requires var value := ['"'] + name + ['"'];
      !Defines(w.env[d.main], value) && !Visible(w.env, d.files[w.root], value)
    ensures ReadName(Tables(d), w, file, symbol, [['"'] + name + ['"']]) ==
      (w.(soft := w.soft + {file}), Some((name, true)))
  {
    var g, value: CString := w.env, ['"'] + name + ['"'];
    assert Tables(d).test(w.root, Present(symbol), g) == (true, g) by { OneLookUp(d, g, w.root, symbol); }
    TablesUnnamed(d, g, w.root, value);
    var texts := [symbol] + [value];
    assert texts[0] == symbol && texts[1] == value;
    SymbolsAreReplaced(Tables(d), w, file, symbol, [value], [g, g, g], 1);
    QuotedAlone(name);
  }

  // A file that includes nothing.
  lemma {:induction false} EmptyIsDrained(g: Snapshot, x: IncList)
    requires WellFormed(g) && x in g && g[x].list == []
    ensures Drained(g, x)
  {
    assert Live(g[x]) == {};
    OnlySelf(Edges(g), {}, x);
  }

  // Inside c, which is still being read.
  lemma {:induction false} InsideChain(d: Given, g: Snapshot, text: string)
    requires Untouched(d, g)
    ensures var h := Record(d, Link(d, g, 0, 1), 1, text);
      && Ready(d, h) && h[d.main] == g[d.main] && Drained(h, d.files[0])
      && forall f :: f in h && f != d.main ==> NamesOf(h[f].defs) <= {d.entry(1, text).s_name}
  {
    var x, c, g1 := d.files[0], d.files[1], Link(d, g, 0, 1);
    LinkedAlone(d, g, 0, 1);
    RecordedAlone(d, g1, 1, text);
    var h := Record(d, g1, 1, text);
    forall f, y | f in h && y in Live(h[f]) ensures !h[y].finished { assert y == c; }
  }

  lemma {:induction false} NotSeen(d: Given, g: Snapshot, x: IncList, text: CString)
    requires d.main in g && !Defines(g[d.main], text)
    requires forall f :: f in g && f != d.main ==> text !in NamesOf(g[f].defs)
    ensures !Visible(g, x, text)
  {
  }

  lemma {:induction false} ChainTables(d: Given, g: Snapshot, n: Chain)
    requires Untouched(d, g) && !Defines(g[d.main], n.c) && !Defines(g[d.main], n.e)
    requires n.e != d.entry(1, n.textC).s_name
    ensures NoSymbols(Tables(d), g, n)
  {
    var h := Record(d, Link(d, g, 0, 1), 1, n.textC);
    InsideChain(d, g, n.textC);
    EmptyIsDrained(g, d.files[0]);
    NotSeen(d, g, d.files[0], n.c);
    TablesUnnamed(d, g, 0, n.c);
    NotSeen(d, h, d.files[0], n.e);
    TablesUnnamed(d, h, 0, n.e);
  }

  lemma {:induction false} ChainIdeals(d: Given, g: Snapshot, n: Chain)
    requires Untouched(d, g) && !Defines(g[d.main], n.c) && !Defines(g[d.main], n.e)
    requires n.e != d.entry(1, n.textC).s_name
    ensures NoSymbols(Ideals(d), Blank(d, g), n)
  {
    IdealsUnnamed(d, Blank(d, g), 0, n.c);
    IdealsUnnamed(d, IdealRecord(d, IdealLink(d, Blank(d, g), 0, 1), 1, n.textC), 0, n.e);
  }

  // ---------------------------------------------------------------- the tables behind the chain

  lemma {:induction false} RecordStaysReady(d: Given, g: Snapshot, file: nat, text: string)
    requires Ready(d, g) && g[d.main].list == [] && file < |d.files|
    ensures Ready(d, Record(d, g, file, text)) && Record(d, g, file, text)[d.main] == g[d.main]
  {
    RecordSettles(d, g, file, text);
    SettledStaysReady(d, g, Record(d, g, file, text));
  }

  lemma {:induction false} LinkedAlone(d: Given, g: Snapshot, file: nat, entry: nat)
    requires Ready(d, g) && g[d.main].list == [] && file < |d.files| && entry < |d.files|
    requires g[d.files[file]].list == [] && g[d.files[file]].merged == []
    ensures var x, h := d.files[file], Link(d, g, file, entry);
      && Ready(d, h) && h == g[x := g[x].(list := [d.files[entry]], merged := [false])]
  {
    LinkStaysReady(d, g, file, entry);
    var x := d.files[file];
    assert g[x].list + [d.files[entry]] == [d.files[entry]] && g[x].merged + [false] == [false];
  }

  lemma {:induction false} RecordedAlone(d: Given, g: Snapshot, file: nat, text: string)
    requires Ready(d, g) && g[d.main].list == [] && file < |d.files| && g[d.files[file]].defs == []
    ensures var f, h := d.files[file], Record(d, g, file, text);
      && Ready(d, h) && h == g[f := g[f].(defs := [d.entry(file, text)])]
  {
    RecordStaysReady(d, g, file, text);
  }

  lemma {:induction false} TablesWithChain(d: Given, g: Snapshot, n: Chain)
    requires Untouched(d, g)
    ensures var h := WithChain(Tables(d), g, n);
      && Ready(d, h) && h[d.main] == g[d.main]
      && H.ChainIn(h, d.files[0], d.files[1], d.files[2], d.entry(1, n.textC), d.entry(2, n.textE))
  {
    var g1 := Link(d, g, 0, 1);
    LinkedAlone(d, g, 0, 1);
    var g2 := Record(d, g1, 1, n.textC);
    RecordedAlone(d, g1, 1, n.textC);
    var g3 := Link(d, g2, 1, 2);
    LinkedAlone(d, g2, 1, 2);
    var g4 := Record(d, g3, 2, n.textE);
    RecordedAlone(d, g3, 2, n.textE);
    var g5 := Close(d, g4, 2);
    CloseStaysReady(d, g4, 2);
    var g6 := Close(d, g5, 1);
    CloseStaysReady(d, g5, 1);
    assert WithChain(Tables(d), g, n) == g6;
  }

  lemma {:induction false} MeaningWithChain(d: Given, g: Snapshot, n: Chain)
    requires Untouched(d, g)
    ensures var t := WithChain(Ideals(d), Blank(d, g), n);
      Known(d, t, 0, d.entry(1, n.textC).s_name) && Known(d, t, 0, d.entry(2, n.textE).s_name)
  {
    var t := WithChain(Ideals(d), Blank(d, g), n);
    var x, c, e := d.files[0], d.files[1], d.files[2];
    assert t.includes[x] == {c} && t.includes[c] == {e};
    assert d.entry(1, n.textC).s_name in t.defs[c] && d.entry(2, n.textE).s_name in t.defs[e];
    ReachSelf(t.includes, {}, e);
    ReachVia(t.includes, {}, c, e, e);
    ReachVia(t.includes, {}, x, c, e);
    ReachSelf(t.includes, {}, c);
    ReachVia(t.includes, {}, x, c, c);
  }

  // ---------------------------------------------------------------- a test that makes another fail

  // #ifdef c, #endif, #ifdef e, #define text, #endif
  function TwoTests(c: CString, e: CString, text: string): Items {
    Group(Present(c), Nil, Closed(""), OneTest(e, text))
  }

  function OneTest(name: CString, text: string): Items {
    Group(Present(name), Leaf(Define(text), Nil), Closed(""), Nil)
  }

  lemma {:induction false} AskOne(d: Given, w: World<Snapshot>, name: CString)
    requires Sound(w) && !w.aborted
    ensures var r := LookUp(d, w.env, w.root, name);
      Ask(Tables(d), w, Present(name)) == (r.0, w.(env := r.1))
  {
    var r := LookUp(d, w.env, w.root, name);
    assert LookUps(d, r.1, w.root, [name][1..]) == ([], r.1);
    assert [r.0] + [] == [r.0];
  }

  // The source sees both names; the first lookup hits, and the second then misses.
  lemma {:induction false} SecondTestMisses(d: Given, g: Snapshot, inC: Symtab, inE: Symtab)
    requires Ready(d, g) && g[d.main].list == []
    requires H.ChainIn(g, d.files[0], d.files[1], d.files[2], inC, inE) && inC.s_name != inE.s_name
    requires !Defines(g[d.main], inC.s_name) && !Defines(g[d.main], inE.s_name)
    ensures var r := LookUp(d, g, 0, inC.s_name); r.0 && !LookUp(d, r.1, 0, inE.s_name).0
  {
    var x, h := d.files[0], LookUp(d, g, 0, inC.s_name).1;
    H.ChainLookup(g, x, d.files[1], d.files[2], inC, inE);
    H.ChainHides(g, x, d.files[1], d.files[2], inC, inE);
    LookUpSettles(d, g, 0, inC.s_name);
    SettledStaysReady(d, g, h);
    LookUpSettles(d, h, 0, inE.s_name);
  }

  lemma {:induction false} RunsTwoTests(d: Given, trees: string -> Items, w: World<Snapshot>, inC: Symtab, inE: Symtab,
                                        text: string)
    requires Sound(w) && w.root == 0 && |w.entries| > 0 && !w.aborted && Ready(d, w.env) && w.env[d.main].list == []
    requires H.ChainIn(w.env, d.files[0], d.files[1], d.files[2], inC, inE) && inC.s_name != inE.s_name
    requires !Defines(w.env[d.main], inC.s_name) && !Defines(w.env[d.main], inE.s_name)
    ensures var r := Run(Tables(d), trees, w, 0, TwoTests(inC.s_name, inE.s_name, text));
      r.trace == w.trace && !r.aborted
  {
    var k := Tables(d);
    SecondTestMisses(d, w.env, inC, inE);
    AskOne(d, w, inC.s_name);
    var u := Ask(k, w, Present(inC.s_name)).1;
    AskOne(d, u, inE.s_name);
    assert Run(k, trees, w, 0, TwoTests(inC.s_name, inE.s_name, text)) ==
      Run(k, trees, u, 0, OneTest(inE.s_name, text));
  }

  lemma {:induction false} MeansTwoTests(d: Given, trees: string -> Items, v: World<Ideal>, c: CString, e: CString,
                                         text: string)
    requires Sound(v) && v.root == 0 && |v.entries| > 0 && !v.aborted
    requires Known(d, v.env, 0, c) && Known(d, v.env, 0, e)
    ensures var r := Meaning(Ideals(d), trees, v, 0, TwoTests(c, e, text));
      r.trace == v.trace + [Defined(0, text)] && !r.aborted
  {
    var m := Ideals(d);
    forall name: CString | name == c || name == e ensures Holds(m, v, Present(name)) {
      assert Answers(d, v.env, 0, [name]) == [true] by { assert [name][1..] == []; }
    }
    assert Meaning(m, trees, v, 0, TwoTests(c, e, text)) == Meaning(m, trees, v, 0, OneTest(e, text));
    var u := DefineIn(m, v, 0, text);
    assert Meaning(m, trees, v, 0, Leaf(Define(text), Nil)) == u by {
      assert ActionMeaning(m, trees, v, 0, Define(text)) == u;
      assert Meaning(m, trees, u, 0, Nil) == u;
    }
    assert Meaning(m, trees, v, 0, OneTest(e, text)) == u;
  }

  /** A whole run of one source, from the beginning: it includes c, then tests for the name that c defines, and
      then for the name that e defines, which c includes. The second test fails, and a definition that
      belongs to the program is not recorded. */
  lemma {:induction false} SecondTestFails(d: Given, trees: string -> Items, g: Snapshot, n: Chain, text: string)
    requires Untouched(d, g) && WellNested(Tables(d), trees) && Laid(Tables(d), trees, n)
    requires var nameC, nameE := d.entry(1, n.textC).s_name, d.entry(2, n.textE).s_name;
      && nameC != nameE && !Defines(g[d.main], nameC) && !Defines(g[d.main], nameE) && n.e != nameC
      && trees(n.source) == Leaf(Include(n.c, []), TwoTests(nameC, nameE, text))
    requires !Defines(g[d.main], n.c) && !Defines(g[d.main], n.e)
    ensures ReadSources(Tables(d), Start(g), [n.source]).trace == ChainEvents(n) + [Finished(0)]
    ensures SourcesMeaning(Ideals(d), trees, Start(Blank(d, g)), [n.source]).trace ==
      ChainEvents(n) + [Defined(0, text)] + [Finished(0)]
  {
    TestsInVain(d, trees, g, n, text);
    TestsAsMeant(d, trees, g, n, text);
  }

  lemma {:induction false} TestsInVain(d: Given, trees: string -> Items, g: Snapshot, n: Chain, text: string)
    requires Untouched(d, g) && WellNested(Tables(d), trees) && Laid(Tables(d), trees, n)
    requires var nameC, nameE := d.entry(1, n.textC).s_name, d.entry(2, n.textE).s_name;
      && nameC != nameE && !Defines(g[d.main], nameC) && !Defines(g[d.main], nameE) && n.e != nameC
      && trees(n.source) == Leaf(Include(n.c, []), TwoTests(nameC, nameE, text))
    requires !Defines(g[d.main], n.c) && !Defines(g[d.main], n.e)
    ensures ReadSources(Tables(d), Start(g), [n.source]).trace == ChainEvents(n) + [Finished(0)]
  {
    var k, w := Tables(d), BehindChain(Tables(d), g, n);
    RunsOneSource(k, trees, g, n.source);
    ChainTables(d, g, n);
    RunsChain(k, trees, g, n);
    TablesWithChain(d, g, n);
    RunsTwoTests(d, trees, w, d.entry(1, n.textC), d.entry(2, n.textE), text);
  }

  lemma {:induction false} TestsAsMeant(d: Given, trees: string -> Items, g: Snapshot, n: Chain, text: string)
    requires Untouched(d, g) && Laid(Ideals(d), trees, n)
    requires var nameC, nameE := d.entry(1, n.textC).s_name, d.entry(2, n.textE).s_name;
      trees(n.source) == Leaf(Include(n.c, []), TwoTests(nameC, nameE, text)) && n.e != nameC
    requires !Defines(g[d.main], n.c) && !Defines(g[d.main], n.e)
    ensures SourcesMeaning(Ideals(d), trees, Start(Blank(d, g)), [n.source]).trace ==
      ChainEvents(n) + [Defined(0, text)] + [Finished(0)]
  {
    var m, t := Ideals(d), Blank(d, g);
    MeansOneSource(m, trees, t, n.source);
    ChainIdeals(d, g, n);
    MeansChain(m, trees, t, n);
    MeaningWithChain(d, g, n);
    MeansTwoTests(d, trees, BehindChain(m, t, n), d.entry(1, n.textC).s_name, d.entry(2, n.textE).s_name, text);
  }

  // ---------------------------------------------------------------- a guarded header

  // #ifndef name, #define text, #endif
  function Guarded(name: CString, text: string): Items {
    Group(Absent(name), Leaf(Define(text), Nil), Closed(""), Nil)
  }

  lemma {:induction false} RunsGuarded<S>(k: Kit<S>, trees: string -> Items, w: World<S>, file: nat, name: CString,
                                          text: string, holds: bool)
    requires Sound(w) && !w.aborted && file < |w.entries| && k.test(w.root, Absent(name), w.env) == (holds, w.env)
    ensures var v := if !holds then w
        else w.(env := k.define(file, text, w.env), trace := w.trace + [Defined(file, text)]);
      Run(k, trees, w, file, Guarded(name, text)) == Meaning(k, trees, w, file, Guarded(name, text)) == v
  {
    assert Ask(k, w, Absent(name)) == (holds, w);
    var v := DefineIn(k, w, file, text);
    assert Run(k, trees, w, file, Leaf(Define(text), Nil)) == v by {
      assert RunAction(k, trees, w, file, Define(text)) == v && Run(k, trees, v, file, Nil) == v;
    }
    assert Meaning(k, trees, w, file, Leaf(Define(text), Nil)) == v by {
      assert ActionMeaning(k, trees, w, file, Define(text)) == v && Meaning(k, trees, v, file, Nil) == v;
    }
    assert Peek(k, w, Leaf(Define(text), Nil)) == w by { assert Peek(k, w, Nil) == w; }
    var u := if holds then v else w;
    assert Run(k, trees, u, file, Nil) == u && Meaning(k, trees, u, file, Nil) == u;
  }

  lemma {:induction false} NothingShown(d: Given, g: Snapshot, i: nat, name: CString)
    requires Untouched(d, g) && i < |d.files|
    ensures !Visible(g, d.files[i], name) && !Sees(Blank(d, g), d.files[i], name)
  {
    var x := d.files[i];
    assert Live(g[x]) == {} && Blank(d, g).includes[x] == {};
    OnlySelf(Edges(g), {}, x);
    OnlySelf(Blank(d, g).includes, {}, x);
  }

  // The header is being read, and defines nothing yet.
  lemma {:induction false} GuardIsAsked(d: Given, g: Snapshot, name: CString)
    requires Untouched(d, g)
    ensures var h := Link(d, g, 0, 1);
      Tables(d).test(0, Absent(name), h) == (!Defines(g[d.main], name), h)
  {
    var h, x := Link(d, g, 0, 1), d.files[0];
    LinkedAlone(d, g, 0, 1);
    forall f, y | f in h && y in Live(h[f]) ensures !h[y].finished { assert y == d.files[1]; }
    assert Drained(h, x);
    DrainedLookup(h, x, name);
    PresenceIsDecided(d, h, Blank(d, g), 0, name);
    NothingShown(d, g, 0, name);
    NothingShown(d, g, 1, name);
    LinkShows(d, g, 0, 1, x, name);
    var r := LookUp(d, h, 0, name);
    assert LookUps(d, h, 0, [name]).1 == h by {
      assert r.1 == h && [name][1..] == [] && LookUps(d, h, 0, []) == ([], h);
    }
  }

  lemma {:induction false} GuardIsMeant(d: Given, g: Snapshot, name: CString)
    requires Untouched(d, g)
    ensures var t := IdealLink(d, Blank(d, g), 0, 1);
      Ideals(d).test(0, Absent(name), t) == (!Defines(g[d.main], name), t)
  {
    var t := IdealLink(d, Blank(d, g), 0, 1);
    PresenceIsDecided(d, g, t, 0, name);
    NothingShown(d, g, 0, name);
    NothingShown(d, g, 1, name);
    IdealLinkShows(d, Blank(d, g), 0, 1, d.files[0], name);
  }

  lemma {:induction false} RunsGuardedHeader<S>(k: Kit<S>, trees: string -> Items, env: S, source: string,
                                                rest: CString, path: string, name: CString, text: string, holds: bool)
    requires IsNew(k, First(env, source), 0, rest, path) && trees(path) == Guarded(name, text)
    requires k.test(0, Absent(name), k.includedBy(0, 1, env)) == (holds, k.includedBy(0, 1, env))
    requires trees(source) == Leaf(Include(rest, []), Nil) && WellNested(k, trees)
    ensures ReadSources(k, Start(env), [source]).trace == GuardEvents(holds, text)
    ensures SourcesMeaning(k, trees, Start(env), [source]).trace == GuardEvents(holds, text)
  {
    RunsOneSource(k, trees, env, source);
    MeansOneSource(k, trees, env, source);
    IncludesGuarded(k, trees, env, source, rest, path, name, text, holds);
    var v := RunAction(k, trees, First(env, source), 0, Include(rest, []));
    assert Run(k, trees, v, 0, Nil) == v && Meaning(k, trees, v, 0, Nil) == v;
  }

  lemma {:induction false} IncludesGuarded<S>(k: Kit<S>, trees: string -> Items, env: S, source: string,
                                              rest: CString, path: string, name: CString, text: string, holds: bool)
    requires IsNew(k, First(env, source), 0, rest, path) && trees(path) == Guarded(name, text)
    requires k.test(0, Absent(name), k.includedBy(0, 1, env)) == (holds, k.includedBy(0, 1, env))
    ensures var v := RunAction(k, trees, First(env, source), 0, Include(rest, []));
      && v == ActionMeaning(k, trees, First(env, source), 0, Include(rest, [])) && !v.aborted
      && v.trace + [Finished(0)] == GuardEvents(holds, text)
  {
    var w := First(env, source);
    RunsNew(k, trees, w, 0, rest, path);
    MeansNew(k, trees, w, 0, rest, path);
    RunsGuarded(k, trees, Inside(k, w, 0, HeaderName(rest), path), 1, name, text, holds);
  }

  function GuardEvents(holds: bool, text: string): seq<Event> {
    [Included(0, 1), Opened(1)] + (if holds then [Defined(1, text)] else []) + [Finished(1), Finished(0)]
  }

  // A source of one #include line, for a header with an include guard.
  ghost predicate GuardLaidOut(d: Given, trees: string -> Items, source: string, rest: CString, path: string,
                               name: CString, text: string) {
    && trees(source) == Leaf(Include(rest, []), Nil) && trees(path) == Guarded(name, text)
    && HeaderIn(rest).Some? && source != HeaderName(rest) && d.present(path)
    && Candidates(d.paths, source, rest) == [path]
  }

  lemma {:induction false} GuardedRuns(d: Given, trees: string -> Items, g: Snapshot, source: string,
                                       rest: CString, path: string, name: CString, text: string)
    requires Untouched(d, g) && WellNested(Tables(d), trees) && !Defines(g[d.main], rest)
    requires GuardLaidOut(d, trees, source, rest, path, name, text)
    ensures ReadSources(Tables(d), Start(g), [source]).trace == GuardEvents(!Defines(g[d.main], name), text)
  {
    EmptyIsDrained(g, d.files[0]);
    NotSeen(d, g, d.files[0], rest);
    TablesUnnamed(d, g, 0, rest);
    GuardIsAsked(d, g, name);
    RunsGuardedHeader(Tables(d), trees, g, source, rest, path, name, text, !Defines(g[d.main], name));
  }

  lemma {:induction false} GuardedMeans(d: Given, trees: string -> Items, g: Snapshot, source: string,
                                        rest: CString, path: string, name: CString, text: string)
    requires Untouched(d, g) && WellNested(Ideals(d), trees) && !Defines(g[d.main], rest)
    requires GuardLaidOut(d, trees, source, rest, path, name, text)
    ensures SourcesMeaning(Ideals(d), trees, Start(Blank(d, g)), [source]).trace ==
      GuardEvents(!Defines(g[d.main], name), text)
  {
    IdealsUnnamed(d, Blank(d, g), 0, rest);
    GuardIsMeant(d, g, name);
    RunsGuardedHeader(Ideals(d), trees, Blank(d, g), source, rest, path, name, text, !Defines(g[d.main], name));
  }

  /** A whole run of a source that includes a header with an include guard: the definition under the guard is
      recorded exactly if the command line does not define the guard, by the program and in the meaning. */
  lemma {:induction false} GuardedHeaderIsRecorded(d: Given, trees: string -> Items, g: Snapshot, source: string,
                                                   rest: CString, path: string, name: CString, text: string)
    requires Untouched(d, g) && WellNested(Tables(d), trees) && !Defines(g[d.main], rest)
    requires GuardLaidOut(d, trees, source, rest, path, name, text)
    ensures var events := [Included(0, 1), Opened(1)] + (if Defines(g[d.main], name) then [] else [Defined(1, text)]) +
        [Finished(1), Finished(0)];
      && ReadSources(Tables(d), Start(g), [source]).trace == events
      && SourcesMeaning(Ideals(d), trees, Start(Blank(d, g)), [source]).trace == events
  {
    GuardedRuns(d, trees, g, source, rest, path, name, text);
    GuardedMeans(d, trees, g, source, rest, path, name, text);
  }

  // ---------------------------------------------------------------- an #undef that reaches into the next source

  // Two sources that include the same header, which defines one name. The first undefines it, the second
  // tests for it. header is the rest of the line in both.
  datatype Couple = Couple(first: string, second: string, header: CString, path: string, textA: string)

  ghost predicate Shared(d: Given, trees: string -> Items, n: Couple, text: string) {
    && HeaderIn(n.header).Some? && var header := HeaderName(n.header);
    && Candidates(d.paths, n.first, n.header) == [n.path] && Candidates(d.paths, n.second, n.header) == [n.path]
    && d.present(n.path) && n.first != header && n.second != header && trees(n.path) == LeafText(n.textA)
    && d.entry(1, n.textA).s_name != ""
    && trees(n.second) == Leaf(Include(n.header, []), OneTest(d.entry(1, n.textA).s_name, text))
  }

  ghost predicate LaidOut(d: Given, trees: string -> Items, n: Couple, text: string) {
    && Shared(d, trees, n, text)
    && trees(n.first) == Leaf(Include(n.header, []), Leaf(Undef(d.entry(1, n.textA).s_name), Nil))
  }

  // Before any file is read, the command line defines neither the name nor a symbol spelt like the
  // rest of the line.
  ghost predicate Unspoilt(d: Given, g: Snapshot, n: Couple) {
    Untouched(d, g) && !Defines(g[d.main], n.header) && !Defines(g[d.main], d.entry(1, n.textA).s_name)
  }

  // The source x includes the header c alone, which has been read and defines one name.
  ghost predicate LeafIn(g: Snapshot, main: IncList, x: IncList, c: IncList, inC: Symtab) {
    && WellFormed(g) && x in g && c in g && main in g && x != c && main != x && main != c
    && g[x] == FileView([], [c], [false], false, false) && g[c] == FileView([inC], [], [], false, true)
    && forall f :: f in g && f != x && f != c ==> g[f].list == [] && (f != main ==> g[f].defs == [] && !g[f].finished)
  }

  lemma {:induction false} TablesWithLeaf(d: Given, g: Snapshot, text: string)
    requires Untouched(d, g)
    ensures var h := WithLeaf(Tables(d), g, 0, 1, text);
      Ready(d, h) && h[d.main] == g[d.main] && LeafIn(h, d.main, d.files[0], d.files[1], d.entry(1, text))
  {
    var g1 := Link(d, g, 0, 1);
    LinkedAlone(d, g, 0, 1);
    var g2 := Record(d, g1, 1, text);
    RecordedAlone(d, g1, 1, text);
    CloseStaysReady(d, g2, 1);
    assert WithLeaf(Tables(d), g, 0, 1, text) == Close(d, g2, 1);
  }

  lemma {:induction false} LeafIsTame(g: Snapshot, main: IncList, x: IncList, c: IncList, inC: Symtab)
    requires LeafIn(g, main, x, c, inC)
    ensures Acyclic(g) && FinishedClosed(g) && Live(g[main]) == {} && Live(g[x]) == {c} && Live(g[c]) == {}
  {
    assert g[x].list[0] == c;
    forall f, y | f in g && y in Live(g[f]) ensures f == x && y == c { }
    OnlySelf(Edges(g), {}, c);
  }

  lemma {:induction false} LeafIsSeen(g: Snapshot, main: IncList, x: IncList, c: IncList, inC: Symtab)
    requires LeafIn(g, main, x, c, inC) && !Defines(g[main], inC.s_name)
    ensures Visible(g, x, inC.s_name) && C.OnlyLeavesSee(g, main, x, inC.s_name)
  {
    LeafIsTame(g, main, x, c, inC);
    assert inC in g[c].defs && Defines(g[c], inC.s_name);
    ReachSelf(Edges(g), {}, c);
    ReachVia(Edges(g), {}, x, c, c);
    forall f | f in g && Visible(g, f, inC.s_name) ensures f == x || f == c {
      if f != x && f != c {
        assert Live(g[f]) == {};
        C.LeafSeesItself(g, f, inC.s_name);
      }
    }
  }

  lemma {:induction false} LeafIsCleared(g: Snapshot, main: IncList, x: IncList, c: IncList, inC: Symtab)
    requires LeafIn(g, main, x, c, inC) && Checked(g) == {} && !Defines(g[main], inC.s_name)
    ensures C.Gone(U.Undefined(g, main, x, inC.s_name), inC.s_name)
  {
    LeafIsTame(g, main, x, c, inC);
    LeafIsSeen(g, main, x, c, inC);
    C.LeafNamesAreClean(g, main, x, inC.s_name);
    C.UndefIsCleanExactlyWhen(g, main, x, inC.s_name);
    var h := U.Undefined(g, main, x, inC.s_name);
    forall f | f in h && Defines(h[f], inC.s_name) ensures Visible(h, f, inC.s_name) { ReachSelf(Edges(h), {}, f); }
  }

  // A test for a name that is found, and for one that is not.
  lemma {:induction false} RunsOneTest(d: Given, trees: string -> Items, w: World<Snapshot>, name: CString,
                                       text: string)
    requires Sound(w) && !w.aborted && w.root < |w.entries|
    ensures var r := Run(Tables(d), trees, w, w.root, OneTest(name, text));
      && !r.aborted
      && r.trace == if LookUp(d, w.env, w.root, name).0 then w.trace + [Defined(w.root, text)] else w.trace
  {
    var k := Tables(d);
    AskOne(d, w, name);
    var u := Ask(k, w, Present(name)).1;
    if LookUp(d, w.env, w.root, name).0 {
      var v := DefineIn(k, u, w.root, text);
      assert Run(k, trees, u, w.root, Leaf(Define(text), Nil)) == v by {
        assert RunAction(k, trees, u, w.root, Define(text)) == v;
        assert Run(k, trees, v, w.root, Nil) == v;
      }
      assert Run(k, trees, w, w.root, OneTest(name, text)) == Run(k, trees, v, w.root, Nil);
    } else {
      assert Peek(k, u, Leaf(Define(text), Nil)) == u by { assert Peek(k, u, Nil) == u; }
      assert Run(k, trees, w, w.root, OneTest(name, text)) == Run(k, trees, u, w.root, Nil);
    }
  }

  // The first include line of either source.
  lemma {:induction false} FirstIncludes(d: Given, trees: string -> Items, g: Snapshot, n: Couple, source: string,
                                         text: string)
    requires Unspoilt(d, g, n) && Shared(d, trees, n, text) && (source == n.first || source == n.second)
    ensures var w := First(g, source);
      RunAction(Tables(d), trees, w, 0, Include(n.header, [])) ==
        BehindLeaf(Tables(d), w, 0, HeaderName(n.header), n.path, n.textA)
  {
    EmptyIsDrained(g, d.files[0]);
    NotSeen(d, g, d.files[0], n.header);
    TablesUnnamed(d, g, 0, n.header);
    RunsLeaf(Tables(d), trees, First(g, source), 0, n.header, n.path, n.textA);
  }

  lemma {:induction false} SecondAlone(d: Given, trees: string -> Items, g: Snapshot, n: Couple, text: string)
    requires Unspoilt(d, g, n) && WellNested(Tables(d), trees) && Shared(d, trees, n, text)
    ensures ReadSources(Tables(d), Start(g), [n.second]).trace ==
      Events(0, 1, n.textA) + [Defined(0, text)] + [Finished(0)]
  {
    var k, w, name := Tables(d), First(g, n.second), d.entry(1, n.textA).s_name;
    RunsOneSource(k, trees, g, n.second);
    FirstIncludes(d, trees, g, n, n.second, text);
    var v := BehindLeaf(k, w, 0, HeaderName(n.header), n.path, n.textA);
    FoundAtOnce(d, g, n.textA);
    RunsOneTest(d, trees, v, name, text);
    assert [] + Events(0, 1, n.textA) == Events(0, 1, n.textA);
  }

  lemma {:induction false} FoundAtOnce(d: Given, g: Snapshot, text: string)
    requires Untouched(d, g) && !Defines(g[d.main], d.entry(1, text).s_name)
    ensures LookUp(d, WithLeaf(Tables(d), g, 0, 1, text), 0, d.entry(1, text).s_name).0
  {
    var h := WithLeaf(Tables(d), g, 0, 1, text);
    TablesWithLeaf(d, g, text);
    LeafIsSeen(h, d.main, d.files[0], d.files[1], d.entry(1, text));
    LookUpSettles(d, h, 0, d.entry(1, text).s_name);
  }

  // Where the first source leaves off.
  ghost function Behind<S>(n: Couple, env: S, trace: seq<Event>): World<S> {
    World(0, [Entry(n.first, n.first), Entry(n.path, HeaderName(n.header))], {1}, {}, env, trace, false)
  }

  ghost function FirstEvents(d: Given, n: Couple): seq<Event> {
    Events(0, 1, n.textA) + [Undefined(d.entry(1, n.textA).s_name)] + [Finished(0)]
  }

  // Before and behind the #undef of the first source.
  ghost function Header(d: Given, g: Snapshot, n: Couple): Snapshot {
    WithLeaf(Tables(d), g, 0, 1, n.textA)
  }

  ghost function Ended(d: Given, g: Snapshot, name: CString): Snapshot {
    Close(d, Remove(d, g, 0, name), 0)
  }

  // The #undef at the end of the first source.
  lemma {:induction false} RunsUndef<S>(k: Kit<S>, trees: string -> Items, w: World<S>, name: CString)
    requires Sound(w) && !w.aborted && w.root == 0 && |w.entries| > 0 && name != ""
    ensures Finish(k, Run(k, trees, w, 0, Leaf(Undef(name), Nil)), 0) ==
      w.(env := k.finish(0, k.undef(0, name, w.env)), trace := w.trace + [Undefined(name)] + [Finished(0)])
  {
    var u := UndefIn(k, w, name);
    assert RunAction(k, trees, w, 0, Undef(name)) == u;
    assert Run(k, trees, u, 0, Nil) == u;
  }

  // The world behind the first source is named.
  lemma {:induction false} LeavesOff<S>(k: Kit<S>, d: Given, n: Couple, env: S, last: S)
    ensures var v := BehindLeaf(k, First(env, n.first), 0, HeaderName(n.header), n.path, n.textA);
      v.(env := last, trace := v.trace + [Undefined(d.entry(1, n.textA).s_name)] + [Finished(0)]) ==
        Behind(n, last, FirstEvents(d, n))
  {
    assert [] + Events(0, 1, n.textA) == Events(0, 1, n.textA);
    assert {} + {1} == {1};
  }

  // The text of the first source behind its first line.
  lemma {:induction false} FirstRunsOn(d: Given, trees: string -> Items, g: Snapshot, n: Couple, text: string,
                                       more: Items)
    requires Unspoilt(d, g, n) && WellNested(Tables(d), trees) && Shared(d, trees, n, text)
    requires trees(n.first) == Leaf(Include(n.header, []), more)
    ensures var v := BehindLeaf(Tables(d), First(g, n.first), 0, HeaderName(n.header), n.path, n.textA);
      && Sound(v) && 0 < |v.entries|
      && ReadSources(Tables(d), Start(g), [n.first]) == Finish(Tables(d), Run(Tables(d), trees, v, 0, more), 0)
  {
    RunsOneSource(Tables(d), trees, g, n.first);
    FirstIncludes(d, trees, g, n, n.first, text);
  }

  lemma {:induction false} FirstRuns(d: Given, trees: string -> Items, g: Snapshot, n: Couple, text: string)
    requires Unspoilt(d, g, n) && WellNested(Tables(d), trees) && LaidOut(d, trees, n, text)
    ensures ReadSources(Tables(d), Start(g), [n.first]) ==
      Behind(n, Ended(d, Header(d, g, n), d.entry(1, n.textA).s_name), FirstEvents(d, n))
  {
    var name := d.entry(1, n.textA).s_name;
    var v := BehindLeaf(Tables(d), First(g, n.first), 0, HeaderName(n.header), n.path, n.textA);
    FirstRunsOn(d, trees, g, n, text, Leaf(Undef(name), Nil));
    RunsUndef(Tables(d), trees, v, name);
    LeavesOff(Tables(d), d, n, g, Ended(d, Header(d, g, n), name));
  }

  // The header is found, and not read again.
  lemma {:induction false} SecondFinds<S>(k: Kit<S>, n: Couple, env: S, trace: seq<Event>)
    requires HeaderIn(n.header).Some? && n.first != HeaderName(n.header)
    ensures var w := NextSource(Behind(n, env, trace), n.second);
      && !w.aborted && w.root == 2 && |w.entries| == 3 && w.entries[2].file == n.second
      && Find(k, w, 2, HeaderIn(n.header)) == (w, Some(1))
      && Enter(k, w, 2, 1) == w.(env := k.includedBy(2, 1, env), trace := trace + [Included(2, 1)])
  {
    var w := NextSource(Behind(n, env, trace), n.second);
    var header := HeaderName(n.header);
    assert w.entries[1].incstring == header && w.entries[0].incstring == n.first;
    assert Expanded(w, header, 1) && !Expanded(w, header, 0);
    assert FirstCached(w, header, 0) == Some(1);
  }

  lemma {:induction false} SecondIncludes<S>(k: Kit<S>, trees: string -> Items, n: Couple, env: S, trace: seq<Event>)
    requires HeaderIn(n.header).Some? && n.first != HeaderName(n.header) && Unnamed(k, 2, n.header, env)
    ensures var w := NextSource(Behind(n, env, trace), n.second);
      var u := w.(env := k.includedBy(2, 1, env), trace := trace + [Included(2, 1)]);
      && w.root == 2 && |w.entries| == 3
      && RunAction(k, trees, w, 2, Include(n.header, [])) == u
      && ActionMeaning(k, trees, w, 2, Include(n.header, [])) == u
  {
    var w := NextSource(Behind(n, env, trace), n.second);
    SecondFinds(k, n, env, trace);
    NameIsRead(k, w, 2, n.header);
  }

  // What the second source makes of the name: it is defined if the source sees it through the header.
  ghost function LastEvents(sees: bool, text: string): seq<Event> {
    [Included(2, 1)] + (if sees then [Defined(2, text)] else []) + [Finished(2)]
  }

  lemma {:induction false} Appended(trace: seq<Event>, text: string)
    ensures trace + LastEvents(true, text) == trace + [Included(2, 1)] + [Defined(2, text)] + [Finished(2)]
    ensures trace + LastEvents(false, text) == trace + [Included(2, 1)] + [Finished(2)]
  {
  }

  // The text of the second source, behind its first line.
  lemma {:induction false} SecondTests(d: Given, trees: string -> Items, w: World<Snapshot>, name: CString,
                                       text: string, trace: seq<Event>)
    requires Sound(w) && !w.aborted && w.root == 2 && 2 < |w.entries| && w.trace == trace + [Included(2, 1)]
    ensures var r := Finish(Tables(d), Run(Tables(d), trees, w, 2, OneTest(name, text)), 2);
      r.trace == trace + LastEvents(LookUp(d, w.env, 2, name).0, text)
  {
    RunsOneTest(d, trees, w, name, text);
    Appended(trace, text);
  }

  lemma {:induction false} SecondRuns(d: Given, trees: string -> Items, n: Couple, text: string, env: Snapshot,
                                      trace: seq<Event>)
    requires WellNested(Tables(d), trees) && Shared(d, trees, n, text) && Unnamed(Tables(d), 2, n.header, env)
    ensures var w := NextSource(Behind(n, env, trace), n.second);
      Sound(w) && w.root == 2 && 2 < |w.entries| && !w.aborted &&
      FindIncludes(Tables(d), w, 2, d.contents(n.second), false).w.trace ==
        trace + LastEvents(LookUp(d, Link(d, env, 2, 1), 2, d.entry(1, n.textA).s_name).0, text)
  {
    var k, w, name := Tables(d), NextSource(Behind(n, env, trace), n.second), d.entry(1, n.textA).s_name;
    SecondFinds(k, n, env, trace);
    SecondIncludes(k, trees, n, env, trace);
    ReadsFile(k, trees, w, 2);
    SecondTests(d, trees, w.(env := Link(d, env, 2, 1), trace := trace + [Included(2, 1)]), name, text, trace);
  }

  // A slot that has not been used.
  ghost predicate Unused(d: Given, g: Snapshot, i: nat) {
    && Ready(d, g) && g[d.main].list == [] && i < |d.files| && g[d.files[i]].list == []
    && forall z: CString :: !Visible(g, d.files[i], z)
  }

  lemma {:induction false} UnusedIsUnnamed(d: Given, g: Snapshot, i: nat, text: CString)
    requires Unused(d, g, i) && !Defines(g[d.main], text)
    ensures Unnamed(Tables(d), i, text, g)
  {
    EmptyIsDrained(g, d.files[i]);
    TablesUnnamed(d, g, i, text);
  }

  // Behind a lookup and an #undef of the source it is still unused.
  lemma {:induction false} StaysUnused(d: Given, g: Snapshot, h: Snapshot, i: nat)
    requires Unused(d, g, i) && Settles(g, h) && InventsNothing(g, h)
    ensures Unused(d, h, i)
  {
    SettledStaysReady(d, g, h);
    assert Evolves(g[d.files[i]], h[d.files[i]]);
  }

  lemma {:induction false} EndedUnused(d: Given, g: Snapshot, name: CString, i: nat)
    requires Unused(d, g, i)
    ensures var h := Ended(d, g, name);
      && Unused(d, h, i) && h[d.main].defs == Remove(d, g, 0, name)[d.main].defs
      && forall f, z: CString :: f in h ==> (Visible(h, f, z) <==> Visible(Remove(d, g, 0, name), f, z))
  {
    var k := Remove(d, g, 0, name);
    RemoveSettles(d, g, 0, name);
    C.UndefinedInvents(g, d.main, d.files[0], name);
    StaysUnused(d, g, k, i);
    CloseStaysReady(d, k, 0);
    forall f, z: CString | f in k ensures Visible(Close(d, k, 0), f, z) <==> Visible(k, f, z) {
      CloseKeepsViews(d, k, 0, f, z);
    }
  }

  lemma {:induction false} CommandStays(d: Given, g: Snapshot, h: Snapshot, text: CString)
    requires Ready(d, g) && Ready(d, h) && h.Keys == g.Keys && g[d.main].list == [] && h[d.main].list == []
    requires InventsNothing(g, h) && !Defines(g[d.main], text)
    ensures !Defines(h[d.main], text)
  {
    CommandLineSeesItself(d, g, text);
    CommandLineSeesItself(d, h, text);
  }

  lemma {:induction false} HeaderLeavesUnused(d: Given, g: Snapshot, n: Couple)
    requires Untouched(d, g)
    ensures var l := Header(d, g, n); Unused(d, l, 2) && l[d.main] == g[d.main]
  {
    var l := Header(d, g, n);
    TablesWithLeaf(d, g, n.textA);
    assert Live(l[d.files[2]]) == {};
    OnlySelf(Edges(l), {}, d.files[2]);
  }

  // What the second source sees through the header: what the header shows.
  lemma {:induction false} SeesThroughHeader(d: Given, g: Snapshot, name: CString)
    requires Unused(d, g, 2) && !Defines(g[d.main], name)
    ensures LookUp(d, Link(d, g, 2, 1), 2, name).0 <==> Visible(g, d.files[1], name)
  {
    var h := Link(d, g, 2, 1);
    LinkStaysReady(d, g, 2, 1);
    LinkShows(d, g, 2, 1, d.files[2], name);
    ReachSelf(Edges(g), {}, d.files[2]);
    LookUpSettles(d, h, 2, name);
  }

  // Both sources, once it is known where the first leaves off.
  lemma {:induction false} BothRun(d: Given, trees: string -> Items, g: Snapshot, n: Couple, text: string, l: Snapshot)
    requires Unspoilt(d, g, n) && WellNested(Tables(d), trees) && Shared(d, trees, n, text)
    requires Unused(d, l, 2) && !Defines(l[d.main], n.header) && !Defines(l[d.main], d.entry(1, n.textA).s_name)
    requires var name := d.entry(1, n.textA).s_name;
      ReadSources(Tables(d), Start(g), [n.first]) == Behind(n, Ended(d, l, name), FirstEvents(d, n))
    ensures var name := d.entry(1, n.textA).s_name;
      ReadSources(Tables(d), Start(g), [n.first, n.second]).trace ==
        FirstEvents(d, n) + LastEvents(Visible(Remove(d, l, 0, name), d.files[1], name), text)
  {
    var name := d.entry(1, n.textA).s_name;
    var h := Ended(d, l, name);
    EndedUnused(d, l, name, 2);
    RemoveSettles(d, l, 0, name);
    C.UndefinedInvents(l, d.main, d.files[0], name);
    SettledStaysReady(d, l, Remove(d, l, 0, name));
    CommandStays(d, l, Remove(d, l, 0, name), n.header);
    CommandStays(d, l, Remove(d, l, 0, name), name);
    UnusedIsUnnamed(d, h, 2, n.header);
    SeesThroughHeader(d, h, name);
    SecondRuns(d, trees, n, text, h, FirstEvents(d, n));
    ReadTwo(Tables(d), Start(g), n.first, n.second);
  }

  lemma {:induction false} ReadTwo<S>(k: Kit<S>, w: World<S>, first: string, second: string)
    requires Sound(w)
    ensures var u := ReadSources(k, w, [first]);
      var v := NextSource(u, second);
      !u.aborted && !v.aborted ==>
        ReadSources(k, w, [first, second]) == FindIncludes(k, v, v.root, k.contents(second), false).w
  {
    assert [first, second][1..] == [second] && [second][1..] == [] && [first][1..] == [];
    var a := NextSource(w, first);
    if !a.aborted {
      var u := FindIncludes(k, a, a.root, k.contents(first), false).w;
      assert ReadSources(k, w, [first]) == u;
      assert ReadSources(k, w, [first, second]) == ReadSources(k, u, [second]);
      var v := NextSource(u, second);
      if !v.aborted {
        var r := FindIncludes(k, v, v.root, k.contents(second), false).w;
        assert ReadSources(k, u, [second]) == ReadSources(k, r, []);
      }
    }
  }

  /** Two sources read in one run, from the beginning. The first includes a header and undefines the name that it
      defines; the second includes the header and tests for the name. The header is not read again, the
      test fails, and the definition under it is not recorded, though it is when the second source is
      read alone. */
  lemma {:induction false} UndefReachesNextSource(d: Given, trees: string -> Items, g: Snapshot, n: Couple,
                                                  text: string)
    requires Unspoilt(d, g, n) && WellNested(Tables(d), trees) && LaidOut(d, trees, n, text)
    ensures ReadSources(Tables(d), Start(g), [n.second]).trace ==
      Events(0, 1, n.textA) + [Defined(0, text)] + [Finished(0)]
    ensures ReadSources(Tables(d), Start(g), [n.first, n.second]).trace ==
      FirstEvents(d, n) + [Included(2, 1)] + [Finished(2)]
  {
    SecondAlone(d, trees, g, n, text);
    FirstRuns(d, trees, g, n, text);
    BothRunCleared(d, trees, g, n, text);
  }

  lemma {:induction false} BothRunCleared(d: Given, trees: string -> Items, g: Snapshot, n: Couple, text: string)
    requires Unspoilt(d, g, n) && WellNested(Tables(d), trees) && Shared(d, trees, n, text)
    requires ReadSources(Tables(d), Start(g), [n.first]) ==
      Behind(n, Ended(d, Header(d, g, n), d.entry(1, n.textA).s_name), FirstEvents(d, n))
    ensures ReadSources(Tables(d), Start(g), [n.first, n.second]).trace ==
      FirstEvents(d, n) + [Included(2, 1)] + [Finished(2)]
  {
    HeaderLeavesUnused(d, g, n);
    BothRun(d, trees, g, n, text, Header(d, g, n));
    HeaderIsCleared(d, g, n);
    Appended(FirstEvents(d, n), text);
  }

  lemma {:induction false} HeaderIsCleared(d: Given, g: Snapshot, n: Couple)
    requires Unspoilt(d, g, n)
    ensures var name := d.entry(1, n.textA).s_name;
      !Visible(Remove(d, Header(d, g, n), 0, name), d.files[1], name)
  {
    var inC := d.entry(1, n.textA);
    TablesWithLeaf(d, g, n.textA);
    LeafIsCleared(Header(d, g, n), d.main, d.files[0], d.files[1], inC);
  }

  // ---------------------------------------------------------------- an #include line in between

  // The first source has one more #include line, in front of the #undef, whose header is not found.
  ghost predicate LaidOutBetween(d: Given, trees: string -> Items, n: Couple, other: CString, text: string) {
    && Shared(d, trees, n, text)
    && trees(n.first) ==
       Leaf(Include(n.header, []), Leaf(Include(other, []), Leaf(Undef(d.entry(1, n.textA).s_name), Nil)))
    && HeaderIn(other).Some? && HeaderName(other) != n.first && HeaderName(other) != HeaderName(n.header)
    && (forall path :: path in Candidates(d.paths, n.first, other) ==> !d.present(path))
    && other != d.entry(1, n.textA).s_name
  }

  lemma {:induction false} NothingFound<S>(k: Kit<S>, w: World<S>, file: nat, name: string, dot: bool)
    requires Sound(w) && file < |w.entries| && !w.aborted
    requires forall i :: 0 <= i < |w.entries| ==> w.entries[i].incstring != name
    requires forall path :: path in k.paths(w.entries[file].file, name, dot) ==> !k.present(path)
    ensures IncPath(k, w, file, name, dot) == (w, None)
  {
    assert FirstCached(w, name, 0).None?;
    assert FirstPresent(k.present, k.paths(w.entries[file].file, name, dot), 0).None?;
  }

  // Such a line does nothing but look its text up.
  lemma {:induction false} OnlyLooksUp(d: Given, trees: string -> Items, w: World<Snapshot>, other: CString)
    requires Sound(w) && !w.aborted && 0 < |w.entries| && HeaderIn(other).Some?
    requires forall i :: 0 <= i < |w.entries| ==> w.entries[i].incstring != HeaderName(other)
    requires forall path :: path in Candidates(d.paths, w.entries[0].file, other) ==> !d.present(path)
    requires !LookUp(d, w.env, w.root, other).0
    ensures RunAction(Tables(d), trees, w, 0, Include(other, [])) == w.(env := LookUp(d, w.env, w.root, other).1)
  {
    var k := Tables(d);
    AskOne(d, w, other);
    var u := w.(env := LookUp(d, w.env, w.root, other).1);
    assert ReadName(k, w, 0, other, []) == (u, HeaderIn(other));
    var header := HeaderIn(other).value;
    NothingFound(k, u, 0, header.0, header.1);
  }

  lemma {:induction false} MissesOther(d: Given, g: Snapshot, n: Couple, other: CString)
    requires Unspoilt(d, g, n) && !Defines(g[d.main], other) && other != d.entry(1, n.textA).s_name
    ensures !LookUp(d, Header(d, g, n), 0, other).0
  {
    var l, c := Header(d, g, n), d.files[1];
    TablesWithLeaf(d, g, n.textA);
    forall f | f in l && f != d.main ensures other !in NamesOf(l[f].defs) { }
    NotSeen(d, l, d.files[0], other);
    LookUpSettles(d, l, 0, other);
  }

  lemma {:induction false} RunsBetween(d: Given, trees: string -> Items, w: World<Snapshot>, other: CString,
                                       name: CString)
    requires Sound(w) && !w.aborted && w.root == 0 && 0 < |w.entries| && HeaderIn(other).Some? && name != ""
    requires forall i :: 0 <= i < |w.entries| ==> w.entries[i].incstring != HeaderName(other)
    requires forall path :: path in Candidates(d.paths, w.entries[0].file, other) ==> !d.present(path)
    requires !LookUp(d, w.env, 0, other).0
    ensures Finish(Tables(d), Run(Tables(d), trees, w, 0, Leaf(Include(other, []), Leaf(Undef(name), Nil))), 0) ==
      w.(env := Ended(d, LookUp(d, w.env, 0, other).1, name), trace := w.trace + [Undefined(name)] + [Finished(0)])
  {
    OnlyLooksUp(d, trees, w, other);
    RunsUndef(Tables(d), trees, w.(env := LookUp(d, w.env, 0, other).1), name);
  }

  lemma {:induction false} FirstRunsBetween(d: Given, trees: string -> Items, g: Snapshot, n: Couple, other: CString,
                                            text: string)
    requires Unspoilt(d, g, n) && WellNested(Tables(d), trees) && LaidOutBetween(d, trees, n, other, text)
    requires !Defines(g[d.main], other)
    ensures ReadSources(Tables(d), Start(g), [n.first]) ==
      Behind(n, Ended(d, LookUp(d, Header(d, g, n), 0, other).1, d.entry(1, n.textA).s_name), FirstEvents(d, n))
  {
    FirstRunsOn(d, trees, g, n, text, Leaf(Include(other, []), Leaf(Undef(d.entry(1, n.textA).s_name), Nil)));
    FirstEndsBetween(d, trees, g, n, other, text);
  }

  lemma {:induction false} NotCached<S>(k: Kit<S>, env: S, n: Couple, other: CString)
    requires n.first != HeaderName(other) && HeaderName(n.header) != HeaderName(other)
    ensures var v := BehindLeaf(k, First(env, n.first), 0, HeaderName(n.header), n.path, n.textA);
      && v.root == 0 && !v.aborted && v.entries[0].file == n.first && v.env == WithLeaf(k, env, 0, 1, n.textA)
      && forall i :: 0 <= i < |v.entries| ==> v.entries[i].incstring != HeaderName(other)
  {
  }

  lemma {:induction false} FirstEndsBetween(d: Given, trees: string -> Items, g: Snapshot, n: Couple, other: CString,
                                            text: string)
    requires Unspoilt(d, g, n) && LaidOutBetween(d, trees, n, other, text) && !Defines(g[d.main], other)
    requires var v := BehindLeaf(Tables(d), First(g, n.first), 0, HeaderName(n.header), n.path, n.textA);
      Sound(v) && 0 < |v.entries|
    ensures var name := d.entry(1, n.textA).s_name;
      var v := BehindLeaf(Tables(d), First(g, n.first), 0, HeaderName(n.header), n.path, n.textA);
      Finish(Tables(d), Run(Tables(d), trees, v, 0, Leaf(Include(other, []), Leaf(Undef(name), Nil))), 0) ==
        Behind(n, Ended(d, LookUp(d, Header(d, g, n), 0, other).1, name), FirstEvents(d, n))
  {
    var name := d.entry(1, n.textA).s_name;
    var v := BehindLeaf(Tables(d), First(g, n.first), 0, HeaderName(n.header), n.path, n.textA);
    var last := Ended(d, LookUp(d, Header(d, g, n), 0, other).1, name);
    MissesOther(d, g, n, other);
    NotCached(Tables(d), g, n, other);
    RunsBetween(d, trees, v, other, name);
    LeavesOff(Tables(d), d, n, g, last);
  }

  // The lookup has merged the header and retired the edge to it, so the #undef does not come there.
  lemma {:induction false} HeaderIsSpared(d: Given, g: Snapshot, n: Couple, other: CString)
    requires Unspoilt(d, g, n) && !Defines(g[d.main], other) && other != d.entry(1, n.textA).s_name
    ensures var l, name := LookUp(d, Header(d, g, n), 0, other).1, d.entry(1, n.textA).s_name;
      && Unused(d, l, 2) && l[d.main].defs == g[d.main].defs
      && Visible(Remove(d, l, 0, name), d.files[1], name)
  {
    var h, x, c, inC := Header(d, g, n), d.files[0], d.files[1], d.entry(1, n.textA);
    var l := LookUp(d, h, 0, other).1;
    TablesWithLeaf(d, g, n.textA);
    HeaderLeavesUnused(d, g, n);
    MissesOther(d, g, n, other);
    LookUpSettles(d, h, 0, other);
    StaysUnused(d, h, l, 2);
    MissDrains(h, x, other);
    MergedAway(h, l, d.main, x, c, inC);
    U.NoFoldNoChange(h, x, other, c);
    assert inC in h[c].defs;
    ReachSelf(Edges(l), {}, c);
    assert SeenElsewhere(l, d.main, x, c, inC.s_name);
    DrainedUndefLeaves(l, d.main, x, inC.s_name, c, inC.s_name);
  }

  lemma {:induction false} MergedAway(g: Snapshot, h: Snapshot, main: IncList, x: IncList, c: IncList, inC: Symtab)
    requires LeafIn(g, main, x, c, inC) && WellFormed(h) && SameShape(g, h) && Drained(h, x)
    ensures !Reach(Edges(h), {}, x, c)
  {
    LeafIsTame(g, main, x, c, inC);
    ShapeSubgraph(g, h);
    assert Edges(h)[x] <= Edges(g)[x] && Evolves(g[c], h[c]);
    ReachSelf(Edges(h), {}, x);
    assert Spent(h, x) && Live(h[x]) == {};
    OnlySelf(Edges(h), {}, x);
  }

  /** With one more #include line in the first source, in front of its #undef and for a header that is not even
      found, the second source does see the name: the lookup of the line has merged the first header into
      the source, so the #undef deletes the copy there and not the header's entry. The meaning, in which an
      #undef is an #undef, does not see it. */
  lemma {:induction false} IncludeLineSparesHeader(d: Given, trees: string -> Items, g: Snapshot, n: Couple,
                                                   other: CString, text: string)
    requires Unspoilt(d, g, n) && WellNested(Tables(d), trees) && LaidOutBetween(d, trees, n, other, text)
    requires !Defines(g[d.main], other)
    ensures ReadSources(Tables(d), Start(g), [n.first, n.second]).trace ==
      FirstEvents(d, n) + [Included(2, 1)] + [Defined(2, text)] + [Finished(2)]
    ensures SourcesMeaning(Ideals(d), trees, Start(Blank(d, g)), [n.first, n.second]).trace ==
      FirstEvents(d, n) + [Included(2, 1)] + [Finished(2)]
  {
    FirstRunsBetween(d, trees, g, n, other, text);
    BothRunBetween(d, trees, g, n, other, text);
    BothMean(d, trees, g, n, other, text);
  }

  lemma {:induction false} BothRunBetween(d: Given, trees: string -> Items, g: Snapshot, n: Couple, other: CString,
                                          text: string)
    requires Unspoilt(d, g, n) && WellNested(Tables(d), trees) && Shared(d, trees, n, text)
    requires !Defines(g[d.main], other) && other != d.entry(1, n.textA).s_name
    requires ReadSources(Tables(d), Start(g), [n.first]) ==
      Behind(n, Ended(d, LookUp(d, Header(d, g, n), 0, other).1, d.entry(1, n.textA).s_name), FirstEvents(d, n))
    ensures ReadSources(Tables(d), Start(g), [n.first, n.second]).trace ==
      FirstEvents(d, n) + [Included(2, 1)] + [Defined(2, text)] + [Finished(2)]
  {
    HeaderIsSpared(d, g, n, other);
    BothRun(d, trees, g, n, text, LookUp(d, Header(d, g, n), 0, other).1);
    Appended(FirstEvents(d, n), text);
  }

  // ---------------------------------------------------------------- what it means

  ghost function HeaderMeant(d: Given, g: Snapshot, n: Couple): Ideal
    requires d.main in g
  {
    WithLeaf(Ideals(d), Blank(d, g), 0, 1, n.textA)
  }

  ghost function EndedMeant(d: Given, t: Ideal, name: CString): Ideal {
    IdealClose(d, IdealRemove(t, name), 0)
  }

  lemma {:induction false} MeansUndef<S>(k: Kit<S>, trees: string -> Items, w: World<S>, name: CString)
    requires Sound(w) && !w.aborted && w.root == 0 && |w.entries| > 0 && name != ""
    ensures Finish(k, Meaning(k, trees, w, 0, Leaf(Undef(name), Nil)), 0) ==
      w.(env := k.finish(0, k.undef(0, name, w.env)), trace := w.trace + [Undefined(name)] + [Finished(0)])
  {
    var u := UndefIn(k, w, name);
    assert ActionMeaning(k, trees, w, 0, Undef(name)) == u;
    assert Meaning(k, trees, u, 0, Nil) == u;
  }

  // Only the header has a name, and that is the one of its #define.
  lemma {:induction false} MeantNames(d: Given, g: Snapshot, n: Couple)
    requires Untouched(d, g)
    ensures var t, name := HeaderMeant(d, g, n), d.entry(1, n.textA).s_name;
      && t.command == NamesOf(g[d.main].defs)
      && forall u :: u in t.defs ==> t.defs[u] <= if u == d.main then t.command else {name}
  {
  }

  lemma {:induction false} MeansNothing(d: Given, trees: string -> Items, v: World<Ideal>, other: CString)
    requires Sound(v) && !v.aborted && 0 < |v.entries| && HeaderIn(other).Some?
    requires Unnamed(Ideals(d), v.root, other, v.env)
    requires forall i :: 0 <= i < |v.entries| ==> v.entries[i].incstring != HeaderName(other)
    requires forall path :: path in Candidates(d.paths, v.entries[0].file, other) ==> !d.present(path)
    ensures ActionMeaning(Ideals(d), trees, v, 0, Include(other, [])) == v
  {
    NameIsRead(Ideals(d), v, 0, other);
    var header := HeaderIn(other).value;
    NothingFound(Ideals(d), v, 0, header.0, header.1);
  }

  lemma {:induction false} MeansBetween(d: Given, trees: string -> Items, v: World<Ideal>, other: CString,
                                        name: CString)
    requires Sound(v) && !v.aborted && v.root == 0 && 0 < |v.entries| && HeaderIn(other).Some? && name != ""
    requires Unnamed(Ideals(d), 0, other, v.env)
    requires forall i :: 0 <= i < |v.entries| ==> v.entries[i].incstring != HeaderName(other)
    requires forall path :: path in Candidates(d.paths, v.entries[0].file, other) ==> !d.present(path)
    ensures Finish(Ideals(d), Meaning(Ideals(d), trees, v, 0, Leaf(Include(other, []), Leaf(Undef(name), Nil))), 0) ==
      v.(env := EndedMeant(d, v.env, name), trace := v.trace + [Undefined(name)] + [Finished(0)])
  {
    MeansNothing(d, trees, v, other);
    MeansUndef(Ideals(d), trees, v, name);
  }

  // The first line of the first source.
  lemma {:induction false} HeaderMeans(d: Given, trees: string -> Items, g: Snapshot, n: Couple, text: string)
    requires Unspoilt(d, g, n) && Shared(d, trees, n, text)
    ensures var w := First(Blank(d, g), n.first);
      ActionMeaning(Ideals(d), trees, w, 0, Include(n.header, [])) ==
        BehindLeaf(Ideals(d), w, 0, HeaderName(n.header), n.path, n.textA)
  {
    IdealsUnnamed(d, Blank(d, g), 0, n.header);
    MeansLeaf(Ideals(d), trees, First(Blank(d, g), n.first), 0, n.header, n.path, n.textA);
  }

  lemma {:induction false} FirstMeans(d: Given, trees: string -> Items, g: Snapshot, n: Couple, other: CString,
                                      text: string)
    requires Unspoilt(d, g, n) && LaidOutBetween(d, trees, n, other, text) && !Defines(g[d.main], other)
    ensures SourcesMeaning(Ideals(d), trees, Start(Blank(d, g)), [n.first]) ==
      Behind(n, EndedMeant(d, HeaderMeant(d, g, n), d.entry(1, n.textA).s_name), FirstEvents(d, n))
  {
    FirstMeansOn(d, trees, g, n, text, Leaf(Include(other, []), Leaf(Undef(d.entry(1, n.textA).s_name), Nil)));
    FirstEndsMeant(d, trees, g, n, other, text);
  }

  lemma {:induction false} FirstEndsMeant(d: Given, trees: string -> Items, g: Snapshot, n: Couple, other: CString,
                                          text: string)
    requires Unspoilt(d, g, n) && LaidOutBetween(d, trees, n, other, text) && !Defines(g[d.main], other)
    requires var v := BehindLeaf(Ideals(d), First(Blank(d, g), n.first), 0, HeaderName(n.header), n.path, n.textA);
      Sound(v) && 0 < |v.entries|
    ensures var name := d.entry(1, n.textA).s_name;
      var v := BehindLeaf(Ideals(d), First(Blank(d, g), n.first), 0, HeaderName(n.header), n.path, n.textA);
      Finish(Ideals(d), Meaning(Ideals(d), trees, v, 0, Leaf(Include(other, []), Leaf(Undef(name), Nil))), 0) ==
        Behind(n, EndedMeant(d, HeaderMeant(d, g, n), name), FirstEvents(d, n))
  {
    var name := d.entry(1, n.textA).s_name;
    var v := BehindLeaf(Ideals(d), First(Blank(d, g), n.first), 0, HeaderName(n.header), n.path, n.textA);
    OtherUnnamed(d, g, n, other);
    NotCached(Ideals(d), Blank(d, g), n, other);
    MeansBetween(d, trees, v, other, name);
    LeavesOff(Ideals(d), d, n, Blank(d, g), EndedMeant(d, HeaderMeant(d, g, n), name));
  }

  lemma {:induction false} FirstMeansOn(d: Given, trees: string -> Items, g: Snapshot, n: Couple, text: string,
                                        more: Items)
    requires Unspoilt(d, g, n) && Shared(d, trees, n, text) && trees(n.first) == Leaf(Include(n.header, []), more)
    ensures var v := BehindLeaf(Ideals(d), First(Blank(d, g), n.first), 0, HeaderName(n.header), n.path, n.textA);
      && Sound(v) && 0 < |v.entries|
      && SourcesMeaning(Ideals(d), trees, Start(Blank(d, g)), [n.first]) ==
           Finish(Ideals(d), Meaning(Ideals(d), trees, v, 0, more), 0)
  {
    MeansOneSource(Ideals(d), trees, Blank(d, g), n.first);
    HeaderMeans(d, trees, g, n, text);
  }

  lemma {:induction false} OtherUnnamed(d: Given, g: Snapshot, n: Couple, other: CString)
    requires Unspoilt(d, g, n) && !Defines(g[d.main], other) && other != d.entry(1, n.textA).s_name
    ensures Unnamed(Ideals(d), 0, other, HeaderMeant(d, g, n))
  {
    MeantNames(d, g, n);
    IdealsUnnamed(d, HeaderMeant(d, g, n), 0, other);
  }

  lemma {:induction false} MeansTwo<S>(k: Kit<S>, trees: string -> Items, w: World<S>, first: string, second: string)
    requires Sound(w)
    ensures var u := SourcesMeaning(k, trees, w, [first]);
      var v := NextSource(u, second);
      !v.aborted ==>
        SourcesMeaning(k, trees, w, [first, second]) == Finish(k, Meaning(k, trees, v, v.root, trees(second)), v.root)
  {
    assert [first, second][1..] == [second] && [second][1..] == [] && [first][1..] == [];
    var u := SourceMeaning(k, trees, w, first);
    assert SourcesMeaning(k, trees, w, [first]) == u;
    assert SourcesMeaning(k, trees, w, [first, second]) == SourcesMeaning(k, trees, u, [second]);
    assert SourcesMeaning(k, trees, u, [second]) == SourceMeaning(k, trees, u, second);
  }

  // A test for a name that is not known.
  lemma {:induction false} MeansOneTest(d: Given, trees: string -> Items, v: World<Ideal>, name: CString, text: string)
    requires Sound(v) && v.root < |v.entries| && Unnamed(Ideals(d), v.root, name, v.env)
    ensures Meaning(Ideals(d), trees, v, v.root, OneTest(name, text)) == v
  {
    var m := Ideals(d);
    assert !Holds(m, v, Present(name));
    assert RestMeaning(m, trees, v, v.root, Closed("")) == v && Meaning(m, trees, v, v.root, Nil) == v;
  }

  lemma {:induction false} BothMean(d: Given, trees: string -> Items, g: Snapshot, n: Couple, other: CString,
                                    text: string)
    requires Unspoilt(d, g, n) && LaidOutBetween(d, trees, n, other, text) && !Defines(g[d.main], other)
    ensures SourcesMeaning(Ideals(d), trees, Start(Blank(d, g)), [n.first, n.second]).trace ==
      FirstEvents(d, n) + [Included(2, 1)] + [Finished(2)]
  {
    var m, name := Ideals(d), d.entry(1, n.textA).s_name;
    var t := EndedMeant(d, HeaderMeant(d, g, n), name);
    FirstMeans(d, trees, g, n, other, text);
    MeansTwo(m, trees, Start(Blank(d, g)), n.first, n.second);
    var w := NextSource(Behind(n, t, FirstEvents(d, n)), n.second);
    NothingMeant(d, g, n);
    SecondFinds(m, n, t, FirstEvents(d, n));
    SecondIncludes(m, trees, n, t, FirstEvents(d, n));
    var u := w.(env := IdealLink(d, t, 2, 1), trace := FirstEvents(d, n) + [Included(2, 1)]);
    MeansOneTest(d, trees, u, name, text);
    assert Meaning(m, trees, w, 2, trees(n.second)) == u;
  }

  // Behind the #undef no file has a name any more.
  lemma {:induction false} NothingMeant(d: Given, g: Snapshot, n: Couple)
    requires Unspoilt(d, g, n)
    ensures var name := d.entry(1, n.textA).s_name;
      var t := EndedMeant(d, HeaderMeant(d, g, n), name);
      Unnamed(Ideals(d), 2, n.header, t) && Unnamed(Ideals(d), 2, name, IdealLink(d, t, 2, 1))
  {
    var name := d.entry(1, n.textA).s_name;
    var t := EndedMeant(d, HeaderMeant(d, g, n), name);
    MeantNames(d, g, n);
    assert forall u :: u in t.defs ==> n.header !in t.defs[u] && name !in t.defs[u];
    IdealsUnnamed(d, t, 2, n.header);
    IdealsUnnamed(d, IdealLink(d, t, 2, 1), 2, name);
  }
}
