/** Lookups that miss: on an acyclic graph they leave every file's view of the defined names alone, though
    they fold tables and retire edges; where files include one another they may not. */
module MissedLookups {
  import opened Names
  import opened SymbolTable
  import opened Graph
  import opened Lookup
  import opened Visibility

  // No file includes itself, directly or through others, over edges not yet merged.
  ghost predicate Acyclic(g: Snapshot) {
    forall f, c :: f in g && c in Live(g[f]) ==> !Reach(Edges(g), {}, c, f)
  }

  // A file that has been read to its end has only such files left to merge.
  ghost predicate FinishedClosed(g: Snapshot) {
    forall f, c :: f in g && g[f].finished && c in Live(g[f]) ==> c in g && g[c].finished
  }

  // No file being checked can be reached again from x.
  ghost predicate ClearOfBlocked(g: Snapshot, x: IncList) {
    forall b :: b in Checked(g) ==> !Reach(Edges(g), {}, x, b)
  }

  lemma {:induction false} ShapeKeepsHypotheses(g: Snapshot, h: Snapshot)
    requires WellFormed(g) && WellFormed(h) && SameShape(g, h)
    ensures Acyclic(g) ==> Acyclic(h)
    ensures FinishedClosed(g) ==> FinishedClosed(h)
    ensures forall x :: x in g && ClearOfBlocked(g, x) ==> ClearOfBlocked(h, x)
  {
    ShapeSubgraph(g, h);
    forall x, y | x in g && Reach(Edges(h), {}, x, y) ensures Reach(Edges(g), {}, x, y) {
      ReachMonotone(Edges(h), Edges(g), {}, {}, x, y);
    }
    forall f, c | f in g && c in Live(h[f]) ensures c in Live(g[f]) && h[f].finished == g[f].finished {
      assert Edges(h)[f] <= Edges(g)[f] && Evolves(g[f], h[f]);
    }
    forall f | f in g ensures h[f].finished == g[f].finished { assert Evolves(g[f], h[f]); }
  }

  // The loop's state at child i: every unmerged child behind it is still being read.
  ghost predicate Folding(g: Snapshot, x: IncList, symbol: CString, i: nat) {
    && InLoop(g, x, None, symbol, i)
    && Acyclic(g) && FinishedClosed(g)
    && (forall c :: c in Live(g[x]) ==> ClearOfBlocked(g, c))
    && FoldedUpTo(g, x, i)
  }

  ghost predicate FoldedUpTo(g: Snapshot, x: IncList, i: nat)
    requires WellFormed(g) && x in g
  {
    forall j :: 0 <= j < i && j < |g[x].list| && !g[x].merged[j] ==> !g[g[x].list[j]].finished
  }

  ghost predicate MissFolds(g: Snapshot, x: IncList, r: Outcome)
    requires x in g
  {
    r.hit.None? ==>
      && KeepsVisible(g, r.g)
      && x in r.g && (g[x].finished ==> Live(r.g[x]) == {})
  }

  lemma {:induction false} MissKeepsVisible(g: Snapshot, x: IncList, symbol: CString)
    requires WellFormed(g) && x in g && BlockedLack(g, symbol)
    requires Acyclic(g) && FinishedClosed(g) && ClearOfBlocked(g, x)
    ensures MissFolds(g, x, FDefined(g, x, symbol))
    decreases g.Keys - Checked(g), 0, 0
  {
    ReachSelf(Edges(g), {}, x);
    assert !g[x].checked;
    var g1 := SetChecked(g, x, true);
    assert x in g.Keys - Checked(g);
    if !Defines(g1[x], symbol) {
      StartFolding(g, x, symbol);
      var r := Children(g1, x, symbol, 0);
      ChildrenKeepVisible(g1, x, symbol, 0);
      if r.hit.None? { StopFolding(g, x, r); }
    }
  }

  lemma {:induction false} StartFolding(g: Snapshot, x: IncList, symbol: CString)
    requires WellFormed(g) && x in g && BlockedLack(g, symbol) && !Defines(g[x], symbol)
    requires Acyclic(g) && FinishedClosed(g) && ClearOfBlocked(g, x)
    ensures Folding(SetChecked(g, x, true), x, symbol, 0)
  {
    var g1 := SetChecked(g, x, true);
    assert Edges(g1) == Edges(g);
    forall c, b | c in Live(g1[x]) && b in Checked(g1) ensures !Reach(Edges(g1), {}, c, b) {
      if Reach(Edges(g), {}, c, b) {
        ReachVia(Edges(g), {}, x, c, b);
      }
    }
    forall f, c | f in g1 && c in Live(g1[f]) ensures c in Live(g[f]) {
    }
  }

  lemma {:induction false} StopFolding(g: Snapshot, x: IncList, r: Outcome)
    requires WellFormed(g) && x in g && !g[x].checked && FinishedClosed(g)
    requires WellFormed(r.g) && SameShape(SetChecked(g, x, true), r.g)
    requires KeepsVisible(SetChecked(g, x, true), r.g) && FoldedUpTo(r.g, x, |g[x].list|)
    ensures MissFolds(g, x, Outcome(SetChecked(r.g, x, false), None))
  {
    var g1 := SetChecked(g, x, true);
    forall f, name: CString | f in g && Visible(g, f, name) ensures Visible(SetChecked(r.g, x, false), f, name) {
      FlagsDoNotShow(g, x, true, f, name);
      FlagsDoNotShow(r.g, x, false, f, name);
    }
    if g[x].finished {
      assert Evolves(g1[x], r.g[x]);
      forall j | 0 <= j < |g[x].list| ensures r.g[x].merged[j] {
        var c := g[x].list[j];
        assert c in g1 && Evolves(g1[c], r.g[c]);
        assert !g[x].merged[j] ==> c in Live(g[x]);
      }
    }
  }

  ghost predicate KeepsAndFolds(g: Snapshot, x: IncList, symbol: CString, i: nat) {
    InLoop(g, x, None, symbol, i) &&
    (var r := Children(g, x, symbol, i);
     r.hit.None? ==> KeepsVisible(g, r.g) && FoldedUpTo(r.g, x, |g[x].list|))
  }

  lemma {:induction false} LoopEndKeeps(g: Snapshot, x: IncList, symbol: CString)
    requires WellFormed(g) && x in g && Folding(g, x, symbol, |g[x].list|)
    ensures KeepsAndFolds(g, x, symbol, |g[x].list|)
  {
  }

  lemma {:induction false} SkipMergedKeeps(g: Snapshot, x: IncList, symbol: CString, i: nat)
    requires Folding(g, x, symbol, i) && i < |g[x].list| && g[x].merged[i] && KeepsAndFolds(g, x, symbol, i + 1)
    ensures KeepsAndFolds(g, x, symbol, i)
  {
  }

  lemma {:induction false} ChildrenKeepVisible(g: Snapshot, x: IncList, symbol: CString, i: nat)
    requires Folding(g, x, symbol, i)
    ensures KeepsAndFolds(g, x, symbol, i)
    decreases g.Keys - Checked(g), 1, |g[x].list| - i, 2
  {
    if i == |g[x].list| {
      LoopEndKeeps(g, x, symbol);
    } else {
      NextKeepsVisible(g, x, symbol, i);
    }
  }

  lemma {:induction false} NextKeepsVisible(g: Snapshot, x: IncList, symbol: CString, i: nat)
    requires Folding(g, x, symbol, i) && i < |g[x].list|
    ensures KeepsAndFolds(g, x, symbol, i)
    decreases g.Keys - Checked(g), 1, |g[x].list| - i, 1
  {
    if g[x].merged[i] {
      FoldingGoesOn(g, x, symbol, i);
      ChildrenKeepVisible(g, x, symbol, i + 1);
      SkipMergedKeeps(g, x, symbol, i);
    } else {
      ChildKeepsVisible(g, x, symbol, i);
    }
  }

  lemma {:induction false} FoldingGoesOn(g: Snapshot, x: IncList, symbol: CString, i: nat)
    requires Folding(g, x, symbol, i) && i < |g[x].list| && g[x].merged[i]
    ensures Folding(g, x, symbol, i + 1)
  {
  }

  lemma {:induction false} ChildKeepsVisible(g: Snapshot, x: IncList, symbol: CString, i: nat)
    requires Folding(g, x, symbol, i) && i < |g[x].list| && !g[x].merged[i]
    ensures KeepsAndFolds(g, x, symbol, i)
    decreases g.Keys - Checked(g), 1, |g[x].list| - i, 0
  {
    var r, h := ChildrenTurn(g, x, symbol, i);
    if r.hit.None? {
      TurnKeepsVisible(g, x, symbol, i, r, h);
      ChildrenKeepVisible(h, x, symbol, i + 1);
    }
  }

  lemma {:induction false} TurnKeepsVisible(g: Snapshot, x: IncList, symbol: CString, i: nat, r: Outcome, h: Snapshot)
    requires Folding(g, x, symbol, i) && i < |g[x].list| && !g[x].merged[i]
    requires r == FDefined(g, g[x].list[i], symbol) && r.hit.None? && r.g[x] == g[x]
    requires h == FoldIfFinished(r.g, x, i) && InLoop(h, x, None, symbol, i + 1)
    ensures KeepsVisible(g, h) && Folding(h, x, symbol, i + 1)
    decreases g.Keys - Checked(g), 0, 1
  {
    var c := g[x].list[i];
    assert c in Live(g[x]);
    MissKeepsVisible(g, c, symbol);
    assert Evolves(g[c], r.g[c]);
    LeafFoldKeepsVisible(r.g, x, i);
    TurnKeepsHypotheses(g, x, symbol, i, r, h);
  }

  lemma {:induction false} TurnKeepsHypotheses(g: Snapshot, x: IncList, symbol: CString, i: nat, r: Outcome,
                                               h: Snapshot)
    requires Folding(g, x, symbol, i) && i < |g[x].list| && !g[x].merged[i]
    requires WellFormed(r.g) && SameShape(g, r.g) && r.g[x] == g[x]
    requires h == FoldIfFinished(r.g, x, i) && InLoop(h, x, None, symbol, i + 1)
    ensures Folding(h, x, symbol, i + 1)
  {
    SameShapeTransitive(g, r.g, h);
    ShapeKeepsHypotheses(g, h);
    ShapeSubgraph(g, h);
    assert Edges(h)[x] <= Edges(g)[x];
    OneMoreFolded(g, x, i, r.g, h);
  }

  lemma {:induction false} OneMoreFolded(g: Snapshot, x: IncList, i: nat, k: Snapshot, h: Snapshot)
    requires WellFormed(g) && x in g && FoldedUpTo(g, x, i) && i < |g[x].list| && !g[x].merged[i]
    requires WellFormed(k) && SameShape(g, k) && k[x] == g[x] && h == FoldIfFinished(k, x, i) && SameShape(g, h)
    ensures FoldedUpTo(h, x, i + 1)
  {
    assert Evolves(g[x], h[x]);
    forall j | 0 <= j <= i && !h[x].merged[j] ensures !h[h[x].list[j]].finished {
      var c := h[x].list[j];
      assert Evolves(g[c], h[c]) && Evolves(g[c], k[c]);
    }
  }

  /** On an acyclic graph in which read files include only read files, a lookup that misses
      leaves every file's set of visible names exactly as it was. */
  lemma {:induction false} MissLeavesVisibilityAlone(g: Snapshot, x: IncList, symbol: CString, f: IncList,
                                                     name: CString)
    requires WellFormed(g) && x in g && f in g && Checked(g) == {}
    requires Acyclic(g) && FinishedClosed(g)
    requires FDefined(g, x, symbol).hit.None?
    ensures Visible(FDefined(g, x, symbol).g, f, name) <==> Visible(g, f, name)
  {
    MissKeepsVisible(g, x, symbol);
    if Visible(FDefined(g, x, symbol).g, f, name) {
      LookupInventsNothing(g, x, symbol, f, name);
    }
  }

  // ---------------------------------------------------------------- files that include one another

  // a includes b and then c, b includes a back, and c defines a symbol; all three read to their ends.
  ghost predicate CycleIn(g: Snapshot, a: IncList, b: IncList, c: IncList, inC: Symtab) {
    && WellFormed(g) && a != b && a != c && b != c && a in g && b in g && c in g
    && g[a] == FileView([], [b, c], [false, false], g[a].checked, true)
    && g[b] == FileView([], [a], [false], g[b].checked, true)
    && g[c] == FileView([inC], [], [], g[c].checked, true)
  }

  // Searching b while a is being checked folds a's still empty table into b for good.
  lemma {:induction false} CycleInnerMiss(g: Snapshot, a: IncList, b: IncList, c: IncList, inC: Symtab, symbol: CString)
    requires CycleIn(g, a, b, c, inC) && g[a].checked && !g[b].checked && BlockedLack(g, symbol)
    ensures FDefined(g, b, symbol) == Outcome(g[b := FileView([], [a], [true], false, true)], None)
  {
    var g2 := SetChecked(g, b, true);
    assert !Defines(g2[b], symbol);
    var r, h := ChildrenTurn(g2, b, symbol, 0);
    assert r == Outcome(g2, None);
    assert h[b] == FileView([], [a], [true], true, true) by {
      assert h[b].merged == [false][0 := true] == [true];
    }
    assert Children(h, b, symbol, 1) == Outcome(h, None);
    assert Search(g2, b, symbol) == Outcome(h, None);
    assert SetChecked(h, b, false) == g[b := FileView([], [a], [true], false, true)];
  }

  lemma {:induction false} CycleOuterMiss(g: Snapshot, a: IncList, b: IncList, c: IncList, inC: Symtab, symbol: CString)
    requires CycleIn(g, a, b, c, inC) && !g[a].checked && !g[b].checked && BlockedLack(g, symbol)
    requires symbol != inC.s_name
    ensures var r := FDefined(g, a, symbol); r.hit.None? && r.g[b] == FileView([], [a], [true], false, true)
  {
    var g1 := SetChecked(g, a, true);
    assert !Defines(g1[a], symbol);
    FDefinedUnfolds(g, a, symbol);
    CycleChildren(g1, a, b, c, inC, symbol);
  }

  lemma {:induction false} CycleChildren(g: Snapshot, a: IncList, b: IncList, c: IncList, inC: Symtab, symbol: CString)
    requires CycleIn(g, a, b, c, inC) && g[a].checked && !g[b].checked && BlockedLack(g, symbol)
    requires symbol != inC.s_name
    ensures var r := Children(g, a, symbol, 0); r.hit.None? && r.g[b] == FileView([], [a], [true], false, true)
  {
    CycleInnerMiss(g, a, b, c, inC, symbol);
    var r, h := ChildrenTurn(g, a, symbol, 0);
    assert h[c] == g[c] && h[b] == FileView([], [a], [true], false, true) && h[a].list == [b, c];
    assert Edges(h)[c] == {};
    CycleLastChild(h, a, b, c, symbol);
  }

  // The search goes on with c, which lacks the symbol and includes nothing; b is left alone.
  lemma {:induction false} CycleLastChild(h: Snapshot, a: IncList, b: IncList, c: IncList, symbol: CString)
    requires InLoop(h, a, None, symbol, 1) && h[a].list == [b, c] && a != b && a != c && b != c
    requires c in h && b in h && !Defines(h[c], symbol) && Edges(h)[c] == {}
    ensures var r := Children(h, a, symbol, 1); r.hit.None? && r.g[b] == h[b]
  {
    var r := Children(h, a, symbol, 1);
    ChildrenExact(h, a, symbol, 1);
    forall t | t in h && FromChild(h, a, 1, t) ensures t == c { LastChildOnly(h, a, b, c, t); }
    assert !Touched(h, r.g, b) && Evolves(h[b], r.g[b]);
  }

  lemma {:induction false} LastChildOnly(h: Snapshot, a: IncList, b: IncList, c: IncList, t: IncList)
    requires WellFormed(h) && a in h && h[a].list == [b, c] && c in h && Edges(h)[c] == {}
    requires FromChild(h, a, 1, t)
    ensures t == c
  {
    OnlySelf(Edges(h), Checked(h), c);
  }

  // The source s, still being read, includes a.
  ghost function SourceOverCycle(s: IncList, a: IncList, b: IncList, c: IncList, inC: Symtab): (g: Snapshot)
    requires s != a && s != b && s != c && a != b && a != c && b != c
    ensures CycleIn(g, a, b, c, inC) && Checked(g) == {} && g.Keys == {s, a, b, c}
    ensures g[s] == FileView([], [a], [false], false, false)
  {
    var g: Snapshot := map[s := FileView([], [a], [false], false, false),
                           a := FileView([], [b, c], [false, false], false, true),
                           b := FileView([], [a], [false], false, true),
                           c := FileView([inC], [], [], false, true)];
    g
  }

  lemma {:induction false} CycleShowsName(s: IncList, a: IncList, b: IncList, c: IncList, inC: Symtab)
    requires s != a && s != b && s != c && a != b && a != c && b != c
    ensures var g := SourceOverCycle(s, a, b, c, inC); FinishedClosed(g) && Visible(g, b, inC.s_name)
  {
    var g := SourceOverCycle(s, a, b, c, inC);
    var e := Edges(g);
    assert g[b].list[0] == a && g[a].list[1] == c;
    assert a in Live(g[b]) && c in Live(g[a]);
    ReachSelf(e, {}, c);
    ReachVia(e, {}, a, c, c);
    ReachVia(e, {}, b, a, c);
    assert inC in g[c].defs && Defines(g[c], inC.s_name);
  }

  /** A lookup from the source that misses can hide names where headers include one another: b, which saw
      c's symbol through a, is cut off from it, and with it every file that comes to include b. */
  lemma {:induction false} CycleMissHidesName(s: IncList, a: IncList, b: IncList, c: IncList, inC: Symtab,
                                              symbol: CString)
    requires s != a && s != b && s != c && a != b && a != c && b != c && symbol != inC.s_name
    ensures var g := SourceOverCycle(s, a, b, c, inC);
      && FinishedClosed(g) && !g[s].finished && Visible(g, b, inC.s_name)
      && FDefined(g, s, symbol).hit.None?
      && !Visible(FDefined(g, s, symbol).g, b, inC.s_name)
  {
    CycleShowsName(s, a, b, c, inC);
    var g := SourceOverCycle(s, a, b, c, inC);
    var g1 := SetChecked(g, s, true);
    assert !Defines(g1[s], symbol);
    CycleOuterMiss(g1, a, b, c, inC, symbol);
    var r, h := ChildrenTurn(g1, s, symbol, 0);
    assert Search(g1, s, symbol) == Children(h, s, symbol, 1) == Outcome(h, None);
    var k := FDefined(g, s, symbol).g;
    assert k[b] == FileView([], [a], [true], false, true) && Edges(k)[b] == {};
    OnlySelf(Edges(k), {}, b);
  }
}
