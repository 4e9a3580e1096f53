/** What fdefined, isdefined and undefine of config/makedepend/parse.c do to the include graph,
    as functions on a snapshot of every file's record, and what follows from it. */
module Lookup {
  import opened Names
  import opened SymbolTable
  import opened Graph

  // The part of a struct inclist that a lookup reads or writes.
  datatype FileView = FileView(defs: seq<Symtab>, list: seq<IncList>, merged: seq<bool>,
                               checked: bool, finished: bool)

  type Snapshot = map<IncList, FileView>

  datatype Outcome = Outcome(g: Snapshot, hit: Option<IncList>)

  ghost predicate WellFormed(g: Snapshot) {
    forall f :: f in g ==>
      && Sorted(g[f].defs)
      && |g[f].merged| == |g[f].list|
      && forall c :: c in g[f].list ==> c in g
  }

  ghost predicate Defines(v: FileView, symbol: CString) {
    symbol in NamesOf(v.defs)
  }

  // The files whose tables have not yet been folded into this one.
  ghost function Live(v: FileView): set<IncList> {
    set i | 0 <= i < |v.list| && i < |v.merged| && !v.merged[i] :: v.list[i]
  }

  ghost function Edges(g: Snapshot): map<IncList, set<IncList>> {
    map f | f in g :: Live(g[f])
  }

  ghost function Checked(g: Snapshot): set<IncList> {
    set f | f in g && g[f].checked
  }

  // Same include list and flags; merge marks are only ever set.
  ghost predicate Evolves(v: FileView, w: FileView) {
    && w.list == v.list && w.checked == v.checked && w.finished == v.finished
    && |w.merged| == |v.merged|
    && forall i :: 0 <= i < |v.merged| && v.merged[i] ==> w.merged[i]
  }

  ghost predicate SameShape(g: Snapshot, h: Snapshot) {
    h.Keys == g.Keys && forall f :: f in g ==> Evolves(g[f], h[f])
  }

  lemma {:induction false} SameShapeTransitive(g: Snapshot, h: Snapshot, k: Snapshot)
    requires SameShape(g, h) && SameShape(h, k)
    ensures SameShape(g, k) && Checked(k) == Checked(g)
  {
    forall f | f in g ensures Evolves(g[f], k[f]) {
      assert Evolves(g[f], h[f]) && Evolves(h[f], k[f]);
    }
  }

  ghost predicate Touched(g: Snapshot, h: Snapshot, f: IncList)
    requires f in g && f in h
  {
    h[f].defs != g[f].defs || h[f].merged != g[f].merged
  }

  // merge2defines on the i-th child, and the edge to it retired.
  ghost function Fold(g: Snapshot, x: IncList, i: nat): (h: Snapshot)
    requires WellFormed(g) && x in g && i < |g[x].list|
    ensures WellFormed(h) && SameShape(g, h)
  {
    var c := g[x].list[i];
    MergedSorted(g[x].defs, g[c].defs);
    g[x := g[x].(defs := Merged(g[x].defs, g[c].defs), merged := g[x].merged[i := true])]
  }

  // The test of FINISHED around the merge.
  ghost function FoldIfFinished(g: Snapshot, x: IncList, i: nat): (h: Snapshot)
    requires WellFormed(g) && x in g && i < |g[x].list|
    ensures WellFormed(h) && SameShape(g, h)
    ensures forall f :: f in g && f != x ==> h[f] == g[f]
  {
    if g[g[x].list[i]].finished then Fold(g, x, i) else g
  }

  // define2: a new name gets the entry e; one already there keeps its place, and its entry takes the
  // new value.
  ghost function Recorded(g: Snapshot, f: IncList, e: Symtab): (h: Snapshot)
    requires WellFormed(g) && f in g
    ensures WellFormed(h)
  {
    MergedSorted(g[f].defs, [e]);
    if Defines(g[f], e.s_name) then g else g[f := g[f].(defs := Merged(g[f].defs, [e]))]
  }

  // included_by: an edge not yet merged, unless the file is listed already.
  ghost function Linked(g: Snapshot, f: IncList, c: IncList): (h: Snapshot)
    requires WellFormed(g) && f in g && c in g
    ensures WellFormed(h)
  {
    if c in g[f].list then g else g[f := g[f].(list := g[f].list + [c], merged := g[f].merged + [false])]
  }

  // The end of find_includes.
  ghost function Completed(g: Snapshot, f: IncList): (h: Snapshot)
    requires WellFormed(g) && f in g
    ensures WellFormed(h)
  {
    g[f := g[f].(finished := true)]
  }

  // ---------------------------------------------------------------- the functions

  ghost function SetChecked(g: Snapshot, x: IncList, b: bool): (h: Snapshot)
    requires WellFormed(g) && x in g
    ensures WellFormed(h) && h.Keys == g.Keys
    ensures Checked(h) == if b then Checked(g) + {x} else Checked(g) - {x}
  {
    g[x := g[x].(checked := b)]
  }

  lemma {:induction false} ClearedShape(g: Snapshot, x: IncList, h: Snapshot)
    requires WellFormed(g) && x in g && !g[x].checked && WellFormed(h)
    requires SameShape(SetChecked(g, x, true), h)
    ensures SameShape(g, SetChecked(h, x, false))
  {
    var g1, h1 := SetChecked(g, x, true), SetChecked(h, x, false);
    forall f | f in g ensures Evolves(g[f], h1[f]) {
      assert Evolves(g1[f], h[f]);
    }
  }

  ghost function FDefined(g: Snapshot, x: IncList, symbol: CString): (r: Outcome)
    requires WellFormed(g) && x in g
    ensures WellFormed(r.g) && SameShape(g, r.g)
    ensures r.hit.Some? ==> r.hit.value in g && !g[r.hit.value].checked
    decreases g.Keys - Checked(g), 0, 0
  {
    if g[x].checked then Outcome(g, None)
    else
      assert x in g.Keys - Checked(g);
      var r := Search(SetChecked(g, x, true), x, symbol);
      ClearedShape(g, x, r.g);
      Outcome(SetChecked(r.g, x, false), r.hit)
  }

  // The body of fdefined between setting and clearing DEFCHECKED.
  ghost function Search(g: Snapshot, x: IncList, symbol: CString): (r: Outcome)
    requires WellFormed(g) && x in g && g[x].checked
    ensures WellFormed(r.g) && SameShape(g, r.g)
    ensures r.hit.Some? ==> r.hit.value in g && (r.hit.value == x || !g[r.hit.value].checked)
    decreases g.Keys - Checked(g), 2, 0
  {
    if Defines(g[x], symbol) then Outcome(g, Some(x)) else Children(g, x, symbol, 0)
  }

  // The loop over the children of x, from the i-th on.
  ghost function Children(g: Snapshot, x: IncList, symbol: CString, i: nat): (r: Outcome)
    requires WellFormed(g) && x in g && g[x].checked && i <= |g[x].list|
    ensures WellFormed(r.g) && SameShape(g, r.g)
    ensures r.hit.Some? ==> r.hit.value in g && !g[r.hit.value].checked
    decreases g.Keys - Checked(g), 1, |g[x].list| - i
  {
    if i == |g[x].list| then Outcome(g, None)
    else if g[x].merged[i] then Children(g, x, symbol, i + 1)
    else
      var c := g[x].list[i];
      var r := FDefined(g, c, symbol);
      var h := FoldIfFinished(r.g, x, i);
      SameShapeTransitive(g, r.g, h);
      if r.hit.Some? then Outcome(h, r.hit) else Children(h, x, symbol, i + 1)
  }

  lemma {:induction false} FDefinedUnfolds(g: Snapshot, x: IncList, symbol: CString)
    requires WellFormed(g) && x in g && !g[x].checked
    ensures var r := Search(SetChecked(g, x, true), x, symbol);
      FDefined(g, x, symbol) == Outcome(SetChecked(r.g, x, false), r.hit)
  {
  }

  // ---------------------------------------------------------------- exactness of the search

  lemma {:induction false} ShapeSubgraph(g: Snapshot, h: Snapshot)
    requires WellFormed(g) && WellFormed(h) && SameShape(g, h)
    ensures Subgraph(Edges(h), Edges(g)) && Checked(h) == Checked(g)
  {
    forall f | f in g ensures Live(h[f]) <= Live(g[f]) && h[f].checked == g[f].checked {
      assert Evolves(g[f], h[f]);
    }
  }

  // What the remaining children of x reach without touching a file already being checked.
  ghost predicate FromChild(g: Snapshot, x: IncList, i: nat, t: IncList)
    requires WellFormed(g) && x in g
  {
    exists j: nat :: i <= j < |g[x].list| && !g[x].merged[j] && Reach(Edges(g), Checked(g), g[x].list[j], t)
  }

  ghost predicate Exact(g: Snapshot, x: IncList, symbol: CString, r: Outcome)
    requires r.g.Keys == g.Keys
  {
    && (forall f :: f in g && Touched(g, r.g, f) ==>
          Reach(Edges(g), Checked(g), x, f) && !Defines(g[f], symbol))
    && (r.hit.None? ==> forall t :: t in g && Reach(Edges(g), Checked(g), x, t) ==>
          !Defines(g[t], symbol) && !Defines(r.g[t], symbol))
    && (r.hit.Some? ==>
          r.hit.value in g && Reach(Edges(g), Checked(g), x, r.hit.value) && Defines(g[r.hit.value], symbol))
  }

  ghost predicate ExactFrom(g: Snapshot, x: IncList, i: nat, symbol: CString, r: Outcome)
    requires WellFormed(g) && x in g && r.g.Keys == g.Keys
  {
    && (forall f :: f in g && Touched(g, r.g, f) ==> (f == x || FromChild(g, x, i, f)) && !Defines(g[f], symbol))
    && (r.hit.None? ==>
          && !Defines(r.g[x], symbol)
          && forall t :: t in g && FromChild(g, x, i, t) ==> !Defines(g[t], symbol) && !Defines(r.g[t], symbol))
    && (r.hit.Some? ==>
          r.hit.value in g && FromChild(g, x, i, r.hit.value) && Defines(g[r.hit.value], symbol))
  }

  // No file whose check is in progress defines the symbol: each was looked up first and missed.
  ghost predicate BlockedLack(g: Snapshot, symbol: CString) {
    forall f :: f in Checked(g) ==> !Defines(g[f], symbol)
  }

  // Facts about the state h in which the loop goes on after the i-th child c.
  lemma {:induction false} AfterChild(g: Snapshot, x: IncList, i: nat, symbol: CString, r: Outcome, h: Snapshot)
    requires WellFormed(g) && x in g && g[x].checked && i < |g[x].list| && !g[x].merged[i]
    requires BlockedLack(g, symbol)
    requires WellFormed(r.g) && SameShape(g, r.g) && Exact(g, g[x].list[i], symbol, r)
    requires h == FoldIfFinished(r.g, x, i)
    ensures SameShape(g, h) && Subgraph(Edges(h), Edges(g)) && Checked(h) == Checked(g)
    ensures forall f :: f in g && Touched(g, h, f) && f != x ==> Reach(Edges(g), Checked(g), g[x].list[i], f)
    ensures forall f :: f in g && Touched(g, h, f) ==> !Defines(g[f], symbol)
    ensures forall t :: t in g && FromChild(h, x, i + 1, t) ==> FromChild(g, x, i, t)
    ensures forall j :: i < j < |g[x].list| ==> h[x].merged[j] == g[x].merged[j]
    ensures r.hit.None? ==> !Defines(h[x], symbol) && BlockedLack(h, symbol)
    ensures r.hit.None? ==> forall t :: t in g && Reach(Edges(g), Checked(g), g[x].list[i], t) ==>
      !Defines(g[t], symbol) && !Defines(h[t], symbol)
  {
    assert x in Checked(g);
    ChildSparesBlocked(g, g[x].list[i], symbol, r);
    AfterChildShape(g, x, i, r.g, h);
    AfterChildTouched(g, x, i, symbol, r, h);
    if r.hit.None? { AfterChildMissed(g, x, i, symbol, r, h); }
  }

  lemma {:induction false} AfterChildShape(g: Snapshot, x: IncList, i: nat, k: Snapshot, h: Snapshot)
    requires WellFormed(g) && x in g && i < |g[x].list|
    requires WellFormed(k) && SameShape(g, k) && h == FoldIfFinished(k, x, i)
    requires k[x].merged == g[x].merged
    ensures SameShape(g, h) && Subgraph(Edges(h), Edges(g)) && Checked(h) == Checked(g)
    ensures forall t :: t in g && FromChild(h, x, i + 1, t) ==> FromChild(g, x, i, t)
    ensures forall j :: i < j < |g[x].list| ==> h[x].merged[j] == g[x].merged[j]
  {
    SameShapeTransitive(g, k, h);
    ShapeSubgraph(g, h);
    assert Evolves(g[x], k[x]) && Evolves(g[x], h[x]);
    forall t | t in g && FromChild(h, x, i + 1, t) ensures FromChild(g, x, i, t) {
      var j: nat :| i + 1 <= j < |h[x].list| && !h[x].merged[j] && Reach(Edges(h), Checked(h), h[x].list[j], t);
      ReachMonotone(Edges(h), Edges(g), Checked(h), Checked(g), h[x].list[j], t);
      assert !g[x].merged[j];
    }
  }

  lemma {:induction false} AfterChildTouched(g: Snapshot, x: IncList, i: nat, symbol: CString, r: Outcome, h: Snapshot)
    requires WellFormed(g) && x in g && g[x].checked && i < |g[x].list| && BlockedLack(g, symbol)
    requires WellFormed(r.g) && SameShape(g, r.g) && Exact(g, g[x].list[i], symbol, r)
    requires h == FoldIfFinished(r.g, x, i)
    ensures forall f :: f in g && Touched(g, h, f) && f != x ==> Reach(Edges(g), Checked(g), g[x].list[i], f)
    ensures forall f :: f in g && Touched(g, h, f) ==> !Defines(g[f], symbol)
  {
    assert x in Checked(g);
    forall f | f in g && f != x && Touched(g, h, f) ensures Touched(g, r.g, f) { }
  }

  lemma {:induction false} AfterChildMissed(g: Snapshot, x: IncList, i: nat, symbol: CString, r: Outcome, h: Snapshot)
    requires WellFormed(g) && x in g && g[x].checked && i < |g[x].list| && BlockedLack(g, symbol)
    requires WellFormed(r.g) && SameShape(g, r.g) && Exact(g, g[x].list[i], symbol, r) && r.hit.None?
    requires h == FoldIfFinished(r.g, x, i) && Checked(h) == Checked(g)
    ensures !Defines(h[x], symbol) && BlockedLack(h, symbol)
    ensures forall t :: t in g && Reach(Edges(g), Checked(g), g[x].list[i], t) ==>
      !Defines(g[t], symbol) && !Defines(h[t], symbol)
  {
    var c := g[x].list[i];
    assert Evolves(g[x], r.g[x]) && x in Checked(g);
    ChildSparesBlocked(g, c, symbol, r);
    MissedChildLacks(g, x, i, symbol, r);
    MergeIsRightBiasedUnion(r.g[x].defs, r.g[c].defs);
    forall t | t in g && Reach(Edges(g), Checked(g), c, t) ensures !Defines(h[t], symbol) {
      ReachEnds(Edges(g), Checked(g), c, t);
    }
  }

  // A lookup does not touch the files being checked.
  lemma {:induction false} ChildSparesBlocked(g: Snapshot, c: IncList, symbol: CString, r: Outcome)
    requires WellFormed(g) && r.g.Keys == g.Keys && Exact(g, c, symbol, r)
    ensures forall f :: f in Checked(g) ==> !Touched(g, r.g, f)
  {
    forall f | f in Checked(g) ensures !Touched(g, r.g, f) {
      if Touched(g, r.g, f) { ReachEnds(Edges(g), Checked(g), c, f); }
    }
  }

  lemma {:induction false} MissedChildLacks(g: Snapshot, x: IncList, i: nat, symbol: CString, r: Outcome)
    requires WellFormed(g) && x in g && g[x].checked && i < |g[x].list|
    requires BlockedLack(g, symbol)
    requires r.g.Keys == g.Keys && Exact(g, g[x].list[i], symbol, r) && r.hit.None?
    ensures !Defines(r.g[g[x].list[i]], symbol)
  {
    var c := g[x].list[i];
    if c in Checked(g) {
      if Touched(g, r.g, c) { ReachEnds(Edges(g), Checked(g), c, c); }
    } else {
      ReachSelf(Edges(g), Checked(g), c);
    }
  }

  // A definition that a later child reaches before the i-th is searched, it reaches afterwards.
  lemma {:induction false} LaterChildStillReaches(g: Snapshot, x: IncList, i: nat, symbol: CString, r: Outcome,
                                                  h: Snapshot, t: IncList)
    requires WellFormed(g) && x in g && g[x].checked && i < |g[x].list| && !g[x].merged[i]
    requires BlockedLack(g, symbol)
    requires WellFormed(r.g) && SameShape(g, r.g) && Exact(g, g[x].list[i], symbol, r)
    requires h == FoldIfFinished(r.g, x, i)
    requires r.hit.None? && t in g && FromChild(g, x, i, t) && Defines(g[t], symbol)
    ensures FromChild(h, x, i + 1, t) && Defines(h[t], symbol)
  {
    AfterChild(g, x, i, symbol, r, h);
    LaterPathSurvives(g, x, i, h, t);
  }

  lemma {:induction false} LaterPathSurvives(g: Snapshot, x: IncList, i: nat, h: Snapshot, t: IncList)
    requires WellFormed(g) && WellFormed(h) && SameShape(g, h) && x in g && g[x].checked && i < |g[x].list|
    requires Checked(h) == Checked(g) && t in g && FromChild(g, x, i, t)
    requires forall f :: f in g && Touched(g, h, f) && f != x ==> Reach(Edges(g), Checked(g), g[x].list[i], f)
    requires forall j :: i < j < |g[x].list| ==> h[x].merged[j] == g[x].merged[j]
    requires !Reach(Edges(g), Checked(g), g[x].list[i], t)
    ensures FromChild(h, x, i + 1, t)
    ensures t != x ==> !Touched(g, h, t)
  {
    var j: nat :| i <= j < |g[x].list| && !g[x].merged[j] && Reach(Edges(g), Checked(g), g[x].list[j], t);
    UntouchedPath(g, h, x, g[x].list[i], g[x].list[j], t);
    assert h[x].list == g[x].list by { assert Evolves(g[x], h[x]); }
  }

  lemma {:induction false} UntouchedPath(g: Snapshot, h: Snapshot, x: IncList, c: IncList, y: IncList, t: IncList)
    requires WellFormed(g) && WellFormed(h) && SameShape(g, h) && x in g && g[x].checked
    requires forall f :: f in g && Touched(g, h, f) && f != x ==> Reach(Edges(g), Checked(g), c, f)
    requires !Reach(Edges(g), Checked(g), c, t)
    requires Reach(Edges(g), Checked(g), y, t)
    ensures Reach(Edges(h), Checked(g), y, t)
  {
    var changed := set f | f in g && Touched(g, h, f) && f != x;
    forall u | u in changed ensures !Reach(Edges(g), Checked(g), u, t) {
      if Reach(Edges(g), Checked(g), u, t) {
        ReachTransitive(Edges(g), Checked(g), c, u, t);
      }
    }
    forall u | u in g && u !in changed && u !in Checked(g) ensures Edges(h)[u] == Edges(g)[u] {
      assert Evolves(g[u], h[u]);
    }
    ReachSurvives(Edges(g), Edges(h), Checked(g), changed, y, t);
  }

  lemma {:induction false} ChildrenExact(g: Snapshot, x: IncList, symbol: CString, i: nat)
    requires WellFormed(g) && x in g && g[x].checked && i <= |g[x].list|
    requires BlockedLack(g, symbol)
    ensures ExactFrom(g, x, i, symbol, Children(g, x, symbol, i))
    decreases g.Keys - Checked(g), 1, |g[x].list| - i, 2
  {
    if i == |g[x].list| {
      LoopEndExact(g, x, symbol);
    } else {
      ChildExact(g, x, symbol, i);
    }
  }

  lemma {:induction false} ChildExact(g: Snapshot, x: IncList, symbol: CString, i: nat)
    requires WellFormed(g) && x in g && g[x].checked && i < |g[x].list|
    requires BlockedLack(g, symbol)
    ensures ExactFrom(g, x, i, symbol, Children(g, x, symbol, i))
    decreases g.Keys - Checked(g), 1, |g[x].list| - i, 1
  {
    if g[x].merged[i] {
      ChildrenExact(g, x, symbol, i + 1);
      SkipMerged(g, x, symbol, i);
    } else {
      UnmergedChildExact(g, x, symbol, i);
    }
  }

  lemma {:induction false} UnmergedChildExact(g: Snapshot, x: IncList, symbol: CString, i: nat)
    requires WellFormed(g) && x in g && g[x].checked && i < |g[x].list| && !g[x].merged[i]
    requires BlockedLack(g, symbol)
    ensures ExactFrom(g, x, i, symbol, Children(g, x, symbol, i))
    decreases g.Keys - Checked(g), 1, |g[x].list| - i, 0
  {
    var r := FDefined(g, g[x].list[i], symbol);
    var h := FoldIfFinished(r.g, x, i);
    FDefinedExact(g, g[x].list[i], symbol);
    if r.hit.Some? {
      HitAtChild(g, x, symbol, i, r, h);
    } else {
      LoopGoesOn(g, x, i, symbol, r, h);
      var rest := Children(h, x, symbol, i + 1);
      ChildrenExact(h, x, symbol, i + 1);
      ChildrenStep(g, x, symbol, i, r, h, rest);
      assert Children(g, x, symbol, i) == rest;
    }
  }

  lemma {:induction false} LoopGoesOn(g: Snapshot, x: IncList, i: nat, symbol: CString, r: Outcome, h: Snapshot)
    requires WellFormed(g) && x in g && g[x].checked && i < |g[x].list| && !g[x].merged[i]
    requires BlockedLack(g, symbol)
    requires WellFormed(r.g) && SameShape(g, r.g) && Exact(g, g[x].list[i], symbol, r)
    requires h == FoldIfFinished(r.g, x, i)
    ensures h.Keys == g.Keys && h[x].checked && h[x].list == g[x].list && Checked(h) == Checked(g)
    ensures r.hit.None? ==> BlockedLack(h, symbol)
  {
    AfterChild(g, x, i, symbol, r, h);
    assert Evolves(g[x], h[x]);
  }

  lemma {:induction false} LoopEndExact(g: Snapshot, x: IncList, symbol: CString)
    requires WellFormed(g) && x in g && g[x].checked && BlockedLack(g, symbol)
    ensures ExactFrom(g, x, |g[x].list|, symbol, Outcome(g, None))
  {
    assert x in Checked(g);
  }

  lemma {:induction false} SkipMerged(g: Snapshot, x: IncList, symbol: CString, i: nat)
    requires WellFormed(g) && x in g && g[x].checked && i < |g[x].list| && g[x].merged[i]
    requires ExactFrom(g, x, i + 1, symbol, Children(g, x, symbol, i + 1))
    ensures ExactFrom(g, x, i, symbol, Children(g, x, symbol, i))
  {
    SkipMergedReach(g, x, i);
    assert Children(g, x, symbol, i) == Children(g, x, symbol, i + 1);
  }

  lemma {:induction false} SkipMergedReach(g: Snapshot, x: IncList, i: nat)
    requires WellFormed(g) && x in g && i < |g[x].list| && g[x].merged[i]
    ensures forall t :: t in g ==> (FromChild(g, x, i, t) <==> FromChild(g, x, i + 1, t))
  {
    forall t | t in g && FromChild(g, x, i, t) ensures FromChild(g, x, i + 1, t) {
      var j: nat :| i <= j < |g[x].list| && !g[x].merged[j] && Reach(Edges(g), Checked(g), g[x].list[j], t);
      assert i + 1 <= j;
    }
  }

  lemma {:induction false} HitAtChild(g: Snapshot, x: IncList, symbol: CString, i: nat, r: Outcome, h: Snapshot)
    requires WellFormed(g) && x in g && g[x].checked && i < |g[x].list| && !g[x].merged[i]
    requires BlockedLack(g, symbol)
    requires WellFormed(r.g) && SameShape(g, r.g) && Exact(g, g[x].list[i], symbol, r) && r.hit.Some?
    requires h == FoldIfFinished(r.g, x, i)
    ensures ExactFrom(g, x, i, symbol, Outcome(h, r.hit))
  {
    AfterChild(g, x, i, symbol, r, h);
  }

  lemma {:induction false} ChildrenStep(g: Snapshot, x: IncList, symbol: CString, i: nat, r: Outcome, h: Snapshot,
                                        res: Outcome)
    requires WellFormed(g) && x in g && g[x].checked && i < |g[x].list| && !g[x].merged[i]
    requires BlockedLack(g, symbol)
    requires WellFormed(r.g) && SameShape(g, r.g) && Exact(g, g[x].list[i], symbol, r) && r.hit.None?
    requires h == FoldIfFinished(r.g, x, i)
    requires res.g.Keys == g.Keys && ExactFrom(h, x, i + 1, symbol, res)
    ensures ExactFrom(g, x, i, symbol, res)
  {
    AfterChild(g, x, i, symbol, r, h);
    forall f | f in g && Touched(g, res.g, f)
      ensures (f == x || FromChild(g, x, i, f)) && !Defines(g[f], symbol)
    {
      if !Touched(g, h, f) { assert Touched(h, res.g, f); }
    }
    if res.hit.None? {
      forall t | t in g && FromChild(g, x, i, t) ensures !Defines(g[t], symbol) && !Defines(res.g[t], symbol) {
        if Defines(g[t], symbol) {
          LaterChildStillReaches(g, x, i, symbol, r, h, t);
        }
        if Touched(h, res.g, t) {
        } else if Touched(g, h, t) {
        }
      }
    }
  }

  /** The search hits exactly when a file reachable over edges not yet merged, and clear of the
      files already being checked, defines the symbol; it touches only files that lack it. */
  lemma {:induction false} FDefinedExact(g: Snapshot, x: IncList, symbol: CString)
    requires WellFormed(g) && x in g && BlockedLack(g, symbol)
    ensures Exact(g, x, symbol, FDefined(g, x, symbol))
    decreases g.Keys - Checked(g), 0, 0
  {
    if g[x].checked {
      forall t | Reach(Edges(g), Checked(g), x, t) ensures false { ReachEnds(Edges(g), Checked(g), x, t); }
    } else {
      ReachSelf(Edges(g), Checked(g), x);
      var g1 := SetChecked(g, x, true);
      assert x in g.Keys - Checked(g);
      if !Defines(g1[x], symbol) {
        ChildrenExact(g1, x, symbol, 0);
        UncheckedStep(g, x, symbol, Children(g1, x, symbol, 0));
      }
    }
  }

  lemma {:induction false} UncheckedStep(g: Snapshot, x: IncList, symbol: CString, r: Outcome)
    requires WellFormed(g) && x in g && !g[x].checked && !Defines(g[x], symbol)
    requires WellFormed(r.g) && r.g.Keys == g.Keys
    requires ExactFrom(SetChecked(g, x, true), x, 0, symbol, r)
    ensures Exact(g, x, symbol, Outcome(SetChecked(r.g, x, false), r.hit))
  {
    UncheckedTouched(g, x, symbol, r);
    if r.hit.None? { UncheckedMiss(g, x, symbol, r); } else { UncheckedHit(g, x, symbol, r); }
  }

  lemma {:induction false} UncheckedHit(g: Snapshot, x: IncList, symbol: CString, r: Outcome)
    requires WellFormed(g) && x in g && !g[x].checked
    requires r.g.Keys == g.Keys && ExactFrom(SetChecked(g, x, true), x, 0, symbol, r) && r.hit.Some?
    ensures r.hit.value in g && Reach(Edges(g), Checked(g), x, r.hit.value) && Defines(g[r.hit.value], symbol)
  {
    ChildrenCoverReach(g, x);
  }

  lemma {:induction false} UncheckedTouched(g: Snapshot, x: IncList, symbol: CString, r: Outcome)
    requires WellFormed(g) && x in g && !g[x].checked && !Defines(g[x], symbol)
    requires WellFormed(r.g) && r.g.Keys == g.Keys
    requires ExactFrom(SetChecked(g, x, true), x, 0, symbol, r)
    ensures forall f :: f in g && Touched(g, SetChecked(r.g, x, false), f) ==>
      Reach(Edges(g), Checked(g), x, f) && !Defines(g[f], symbol)
  {
    forall f | f in g && Touched(g, SetChecked(r.g, x, false), f)
      ensures Reach(Edges(g), Checked(g), x, f) && !Defines(g[f], symbol)
    {
      TouchedInside(g, x, r.g, f);
      TouchedIsReached(g, x, symbol, r, f);
    }
  }

  lemma {:induction false} TouchedIsReached(g: Snapshot, x: IncList, symbol: CString, r: Outcome, f: IncList)
    requires WellFormed(g) && x in g && !g[x].checked && !Defines(g[x], symbol)
    requires r.g.Keys == g.Keys && ExactFrom(SetChecked(g, x, true), x, 0, symbol, r)
    requires f in g && Touched(SetChecked(g, x, true), r.g, f)
    ensures Reach(Edges(g), Checked(g), x, f) && !Defines(g[f], symbol)
  {
    ChildrenCoverReach(g, x);
    ReachSelf(Edges(g), Checked(g), x);
  }

  // Flags do not count as touching.
  lemma {:induction false} TouchedInside(g: Snapshot, x: IncList, h: Snapshot, f: IncList)
    requires WellFormed(g) && WellFormed(h) && x in g && h.Keys == g.Keys && f in g
    ensures Touched(g, SetChecked(h, x, false), f) <==> Touched(SetChecked(g, x, true), h, f)
  {
  }

  lemma {:induction false} UncheckedMiss(g: Snapshot, x: IncList, symbol: CString, r: Outcome)
    requires WellFormed(g) && x in g && !g[x].checked && !Defines(g[x], symbol)
    requires WellFormed(r.g) && r.g.Keys == g.Keys && r.hit.None?
    requires ExactFrom(SetChecked(g, x, true), x, 0, symbol, r)
    ensures forall t :: t in g && Reach(Edges(g), Checked(g), x, t) ==>
      !Defines(g[t], symbol) && !Defines(SetChecked(r.g, x, false)[t], symbol)
  {
    ChildrenCoverReach(g, x);
  }

  // Once x is flagged, its children reach what x reached, except x itself.
  lemma {:induction false} ChildrenCoverReach(g: Snapshot, x: IncList)
    requires WellFormed(g) && x in g && !g[x].checked
    ensures forall t :: t in g && FromChild(SetChecked(g, x, true), x, 0, t) ==> Reach(Edges(g), Checked(g), x, t)
    ensures forall t :: t in g && Reach(Edges(g), Checked(g), x, t) ==>
      t == x || FromChild(SetChecked(g, x, true), x, 0, t)
  {
    var g1 := SetChecked(g, x, true);
    assert Edges(g1) == Edges(g);
    forall t | t in g && FromChild(g1, x, 0, t) ensures Reach(Edges(g), Checked(g), x, t) {
      var j: nat :| j < |g1[x].list| && !g1[x].merged[j] && Reach(Edges(g1), Checked(g1), g1[x].list[j], t);
      ReachMonotone(Edges(g1), Edges(g), Checked(g1), Checked(g), g[x].list[j], t);
      ReachVia(Edges(g), Checked(g), x, g[x].list[j], t);
    }
    forall t | t in g && Reach(Edges(g), Checked(g), x, t) ensures t == x || FromChild(g1, x, 0, t) {
      ReachFirstStep(Edges(g), Checked(g), x, t);
      if t != x {
        var c :| c in Edges(g)[x] && Reach(Edges(g), Checked(g) + {x}, c, t);
        var j :| 0 <= j < |g[x].list| && !g[x].merged[j] && g[x].list[j] == c;
        assert g1[x].list[j] == c;
      }
    }
  }

  // ---------------------------------------------------------------- visible names

  // A name a file sees: in its own table, or in that of a file reached over unmerged edges.
  ghost predicate Visible(g: Snapshot, f: IncList, name: CString) {
    exists t :: t in g && Reach(Edges(g), {}, f, t) && Defines(g[t], name)
  }

  /** With no check in progress, fdefined hits iff the symbol is visible; the file it names holds
      the symbol in its table as it is afterwards; all flags are clear again; and after a miss
      the symbol is still out of sight. */
  lemma {:induction false} LookupFindsWhatIsVisible(g: Snapshot, x: IncList, symbol: CString)
    requires WellFormed(g) && x in g && Checked(g) == {}
    ensures var r := FDefined(g, x, symbol);
      && Checked(r.g) == {}
      && (r.hit.Some? <==> Visible(g, x, symbol))
      && (r.hit.Some? ==> Defines(r.g[r.hit.value], symbol) && r.g[r.hit.value].defs == g[r.hit.value].defs)
      && (r.hit.None? ==> !Visible(r.g, x, symbol))
  {
    var r := FDefined(g, x, symbol);
    FDefinedExact(g, x, symbol);
    ShapeSubgraph(g, r.g);
    if r.hit.None? && Visible(r.g, x, symbol) {
      var t :| t in r.g && Reach(Edges(r.g), {}, x, t) && Defines(r.g[t], symbol);
      ReachMonotone(Edges(r.g), Edges(g), {}, {}, x, t);
    }
    assert r.hit.Some? ==> !Touched(g, r.g, r.hit.value);
  }

  // Folding along a live edge shows nobody a name they could not already see.
  lemma {:induction false} FoldInventsNothing(g: Snapshot, x: IncList, i: nat, f: IncList, name: CString)
    requires WellFormed(g) && x in g && i < |g[x].list| && !g[x].merged[i]
    requires Visible(FoldIfFinished(g, x, i), f, name)
    ensures Visible(g, f, name)
  {
    var h := FoldIfFinished(g, x, i);
    ShapeSubgraph(g, h);
    var t :| t in h && Reach(Edges(h), {}, f, t) && Defines(h[t], name);
    ReachMonotone(Edges(h), Edges(g), {}, {}, f, t);
    if !Defines(g[t], name) {
      var c := g[x].list[i];
      MergeIsRightBiasedUnion(g[x].defs, g[c].defs);
      assert t == x && Defines(g[c], name) && c in Edges(g)[x];
      ReachSelf(Edges(g), {}, c);
      ReachVia(Edges(g), {}, x, c, c);
      ReachTransitive(Edges(g), {}, f, x, c);
    }
  }

  // One turn of the loop: search the i-th child, fold it, then stop or go on.
  lemma {:induction false} ChildrenTurn(g: Snapshot, x: IncList, symbol: CString, i: nat) returns (r: Outcome,
                                        h: Snapshot)
    requires AtChild(g, x, symbol, i)
    ensures r == FDefined(g, g[x].list[i], symbol) && WellFormed(r.g) && r.g.Keys == g.Keys
    ensures r.g[x] == g[x]
    ensures h == FoldIfFinished(r.g, x, i) && InLoop(h, x, r.hit, symbol, i + 1)
    ensures h.Keys - Checked(h) == g.Keys - Checked(g) && h[x].list == g[x].list
    ensures Children(g, x, symbol, i) == if r.hit.Some? then Outcome(h, r.hit) else Children(h, x, symbol, i + 1)
  {
    r := FDefined(g, g[x].list[i], symbol);
    h := FoldIfFinished(r.g, x, i);
    SameShapeTransitive(g, r.g, h);
    FDefinedExact(g, g[x].list[i], symbol);
    LoopGoesOn(g, x, i, symbol, r, h);
    assert Evolves(g[x], r.g[x]);
    if Touched(g, r.g, x) {
      ReachEnds(Edges(g), Checked(g), g[x].list[i], x);
    }
  }

  ghost predicate InLoop(g: Snapshot, x: IncList, hit: Option<IncList>, symbol: CString, i: nat) {
    && WellFormed(g) && x in g && g[x].checked && i <= |g[x].list|
    && (hit.None? ==> BlockedLack(g, symbol))
  }

  ghost predicate AtChild(g: Snapshot, x: IncList, symbol: CString, i: nat) {
    InLoop(g, x, None, symbol, i) && i < |g[x].list| && !g[x].merged[i]
  }

  /** A lookup, on any graph and whatever its answer, never lets a file see a new name. */
  lemma {:induction false} LookupInventsNothing(g: Snapshot, x: IncList, symbol: CString, f: IncList, name: CString)
    requires WellFormed(g) && x in g && BlockedLack(g, symbol)
    requires Visible(FDefined(g, x, symbol).g, f, name)
    ensures Visible(g, f, name)
    decreases g.Keys - Checked(g), 0, 0
  {
    if !g[x].checked {
      var g1 := SetChecked(g, x, true);
      assert x in g.Keys - Checked(g);
      FlagsDoNotShow(Search(g1, x, symbol).g, x, false, f, name);
      if !Defines(g1[x], symbol) { ChildrenInventNothing(g1, x, symbol, 0, f, name); }
      FlagsDoNotShow(g, x, true, f, name);
    }
  }

  lemma {:induction false} FlagsDoNotShow(g: Snapshot, x: IncList, b: bool, f: IncList, name: CString)
    requires WellFormed(g) && x in g
    ensures Visible(SetChecked(g, x, b), f, name) <==> Visible(g, f, name)
  {
    var h := SetChecked(g, x, b);
    assert Edges(h) == Edges(g);
    assert forall t :: t in g ==> Defines(h[t], name) == Defines(g[t], name);
  }

  lemma {:induction false} ChildrenInventNothing(g: Snapshot, x: IncList, symbol: CString, i: nat, f: IncList,
                                                 name: CString)
    requires InLoop(g, x, None, symbol, i)
    requires Visible(Children(g, x, symbol, i).g, f, name)
    ensures Visible(g, f, name)
    decreases g.Keys - Checked(g), 1, |g[x].list| - i, 1
  {
    if i < |g[x].list| {
      if g[x].merged[i] {
        ChildrenInventNothing(g, x, symbol, i + 1, f, name);
      } else {
        ChildInventsNothing(g, x, symbol, i, f, name);
      }
    }
  }

  lemma {:induction false} ChildInventsNothing(g: Snapshot, x: IncList, symbol: CString, i: nat, f: IncList,
                                               name: CString)
    requires AtChild(g, x, symbol, i)
    requires Visible(Children(g, x, symbol, i).g, f, name)
    ensures Visible(g, f, name)
    decreases g.Keys - Checked(g), 1, |g[x].list| - i, 0
  {
    var r, h := ChildrenTurn(g, x, symbol, i);
    if r.hit.None? { ChildrenInventNothing(h, x, symbol, i + 1, f, name); }
    TurnInventsNothing(g, x, symbol, i, f, name, r);
  }

  lemma {:induction false} TurnInventsNothing(g: Snapshot, x: IncList, symbol: CString, i: nat, f: IncList,
                                              name: CString, r: Outcome)
    requires AtChild(g, x, symbol, i) && r == FDefined(g, g[x].list[i], symbol) && r.g[x] == g[x]
    requires Visible(FoldIfFinished(r.g, x, i), f, name)
    ensures Visible(g, f, name)
    decreases g.Keys - Checked(g), 0, 1
  {
    FoldInventsNothing(r.g, x, i, f, name);
    LookupInventsNothing(g, g[x].list[i], symbol, f, name);
  }
}
