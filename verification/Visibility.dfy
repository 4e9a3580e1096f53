/** Folding the tables of included files into their includers, and when that leaves every file's view of
    the defined names as it was: for one fold, and for all the folds of a lookup, on any graph. */
module Visibility {
  import opened Names
  import opened SymbolTable
  import opened Graph
  import opened Lookup

  ghost predicate KeepsVisible(g: Snapshot, h: Snapshot) {
    forall f, name: CString :: f in g && Visible(g, f, name) ==> Visible(h, f, name)
  }

  // Nobody sees more in h than in g.
  ghost predicate InventsNothing(g: Snapshot, h: Snapshot) {
    forall f, name: CString :: f in g && Visible(h, f, name) ==> Visible(g, f, name)
  }

  lemma {:induction false} Squeeze(g: Snapshot, m: Snapshot, h: Snapshot)
    requires m.Keys == g.Keys && InventsNothing(g, m) && InventsNothing(m, h)
    ensures InventsNothing(g, h)
    ensures KeepsVisible(g, h) <==> KeepsVisible(g, m) && KeepsVisible(m, h)
  {
  }

  // ---------------------------------------------------------------- one fold

  // Another unmerged child of x sees the name without going through x.
  ghost predicate SeesWithout(g: Snapshot, x: IncList, i: nat, name: CString)
    requires WellFormed(g) && x in g
  {
    exists j: nat, t: IncList :: j < |g[x].list| && j != i && !g[x].merged[j] && t in g
      && Reach(Edges(g), {x}, g[x].list[j], t) && Defines(g[t], name)
  }

  // What the i-th child of x sees is in its own table, or x has it from elsewhere.
  ghost predicate Spared(g: Snapshot, x: IncList, i: nat, name: CString)
    requires WellFormed(g) && x in g && i < |g[x].list|
  {
    Defines(g[x], name) || Defines(g[g[x].list[i]], name) || SeesWithout(g, x, i, name)
  }

  ghost predicate Harmless(g: Snapshot, x: IncList, i: nat)
    requires WellFormed(g) && x in g && i < |g[x].list|
  {
    g[g[x].list[i]].finished ==> forall name: CString :: Visible(g, g[x].list[i], name) ==> Spared(g, x, i, name)
  }

  lemma {:induction false} FoldedTable(g: Snapshot, x: IncList, i: nat)
    requires WellFormed(g) && x in g && i < |g[x].list|
    ensures NamesOf(Fold(g, x, i)[x].defs) == NamesOf(g[x].defs) + NamesOf(g[g[x].list[i]].defs)
  {
    MergeIsRightBiasedUnion(g[x].defs, g[g[x].list[i]].defs);
  }

  // After the fold, x sees exactly what was spared.
  lemma {:induction false} SeenAfterFold(g: Snapshot, x: IncList, i: nat, name: CString)
    requires WellFormed(g) && x in g && i < |g[x].list| && !g[x].merged[i]
    ensures Visible(Fold(g, x, i), x, name) <==> Spared(g, x, i, name)
  {
    var h := Fold(g, x, i);
    FoldedTable(g, x, i);
    ReachSelf(Edges(h), {}, x);
    if Visible(h, x, name) {
      var t :| t in h && Reach(Edges(h), {}, x, t) && Defines(h[t], name);
      if t != x { SeenThroughSibling(g, x, i, name, t); }
    }
    if SeesWithout(g, x, i, name) { SiblingStillSees(g, x, i, name); }
  }

  lemma {:induction false} SeenThroughSibling(g: Snapshot, x: IncList, i: nat, name: CString, t: IncList)
    requires WellFormed(g) && x in g && i < |g[x].list| && !g[x].merged[i]
    requires t in g && t != x && Reach(Edges(Fold(g, x, i)), {}, x, t) && Defines(g[t], name)
    ensures SeesWithout(g, x, i, name)
  {
    var h := Fold(g, x, i);
    ReachFirstStep(Edges(h), {}, x, t);
    var c :| c in Edges(h)[x] && Reach(Edges(h), {} + {x}, c, t);
    assert {} + {x} == {x};
    var j: nat :| j < |h[x].list| && !h[x].merged[j] && h[x].list[j] == c;
    ShapeSubgraph(g, h);
    ReachMonotone(Edges(h), Edges(g), {x}, {x}, c, t);
  }

  lemma {:induction false} SiblingStillSees(g: Snapshot, x: IncList, i: nat, name: CString)
    requires WellFormed(g) && x in g && i < |g[x].list| && SeesWithout(g, x, i, name)
    ensures Visible(Fold(g, x, i), x, name)
  {
    var h := Fold(g, x, i);
    var j: nat, t: IncList :| j < |g[x].list| && j != i && !g[x].merged[j] && t in g
      && Reach(Edges(g), {x}, g[x].list[j], t) && Defines(g[t], name);
    AvoidingFold(g, x, i, g[x].list[j], t);
    ReachMonotone(Edges(h), Edges(h), {x}, {}, g[x].list[j], t);
    assert h[x].list[j] in Live(h[x]);
    ReachVia(Edges(h), {}, x, g[x].list[j], t);
    ReachEnds(Edges(g), {x}, g[x].list[j], t);
    assert h[t] == g[t];
  }

  // A path that avoids x does not notice the fold.
  lemma {:induction false} AvoidingFold(g: Snapshot, x: IncList, i: nat, f: IncList, t: IncList)
    requires WellFormed(g) && x in g && i < |g[x].list| && Reach(Edges(g), {x}, f, t)
    ensures Reach(Edges(Fold(g, x, i)), {x}, f, t)
  {
    ReachSurvives(Edges(g), Edges(Fold(g, x, i)), {x}, {}, f, t);
  }

  // A path up to x uses no edge of x.
  lemma {:induction false} PathToFold(g: Snapshot, x: IncList, i: nat, f: IncList, n: nat)
    requires WellFormed(g) && x in g && i < |g[x].list| && Path(Edges(g), {}, f, x, n)
    ensures Reach(Edges(Fold(g, x, i)), {}, f, x)
  {
    var k := Edges(Fold(g, x, i));
    if f == x {
      ReachSelf(k, {}, x);
    } else {
      var z :| z in Edges(g)[f] && Path(Edges(g), {}, z, x, n - 1);
      PathToFold(g, x, i, z, n - 1);
      ReachVia(k, {}, f, z, x);
    }
  }

  // A path either avoids x or comes to it.
  lemma {:induction false} AvoidsOrMeets(e: map<IncList, set<IncList>>, x: IncList, f: IncList, t: IncList, n: nat)
    requires Path(e, {}, f, t, n)
    ensures Path(e, {x}, f, t, n) || (Reach(e, {}, f, x) && Reach(e, {}, x, t))
  {
    if f == x {
      assert Reach(e, {}, x, t);
      ReachSelf(e, {}, x);
    } else if n > 0 {
      var z :| z in e[f] && Path(e, {}, z, t, n - 1);
      AvoidsOrMeets(e, x, z, t, n - 1);
      if !Path(e, {x}, z, t, n - 1) { ReachVia(e, {}, f, z, x); }
    }
  }

  // Harmless for x is harmless for all.
  lemma {:induction false} OthersSeeThroughX(g: Snapshot, x: IncList, i: nat, f: IncList, name: CString)
    requires WellFormed(g) && x in g && i < |g[x].list|
    requires Visible(g, x, name) ==> Visible(Fold(g, x, i), x, name)
    requires f in g && Visible(g, f, name)
    ensures Visible(Fold(g, x, i), f, name)
  {
    var h := Fold(g, x, i);
    var t :| t in g && Reach(Edges(g), {}, f, t) && Defines(g[t], name);
    var n: nat :| Path(Edges(g), {}, f, t, n);
    AvoidsOrMeets(Edges(g), x, f, t, n);
    if Path(Edges(g), {x}, f, t, n) {
      assert Reach(Edges(g), {x}, f, t);
      AvoidingFold(g, x, i, f, t);
      ReachMonotone(Edges(h), Edges(h), {x}, {}, f, t);
      ReachEnds(Edges(g), {x}, f, t);
      assert h[t] == g[t];
    } else {
      assert Visible(g, x, name);
      var m: nat :| Path(Edges(g), {}, f, x, m);
      PathToFold(g, x, i, f, m);
      var u :| u in h && Reach(Edges(h), {}, x, u) && Defines(h[u], name);
      ReachTransitive(Edges(h), {}, f, x, u);
    }
  }

  // What x saw before the fold is spared, unless it saw it through the child alone.
  lemma {:induction false} SeenByParent(g: Snapshot, x: IncList, i: nat, name: CString)
    requires WellFormed(g) && x in g && i < |g[x].list| && !g[x].merged[i]
    ensures Visible(g, g[x].list[i], name) ==> Visible(g, x, name)
    ensures Visible(g, x, name) ==> Spared(g, x, i, name) || Visible(g, g[x].list[i], name)
  {
    var c := g[x].list[i];
    assert c in Live(g[x]);
    if Visible(g, c, name) {
      var t :| t in g && Reach(Edges(g), {}, c, t) && Defines(g[t], name);
      ReachVia(Edges(g), {}, x, c, t);
    }
    if Visible(g, x, name) {
      var t :| t in g && Reach(Edges(g), {}, x, t) && Defines(g[t], name);
      ReachFirstStep(Edges(g), {}, x, t);
      if t != x {
        var e :| e in Edges(g)[x] && Reach(Edges(g), {} + {x}, e, t);
        assert {} + {x} == {x};
        var j: nat :| j < |g[x].list| && !g[x].merged[j] && g[x].list[j] == e;
        if j == i { ReachMonotone(Edges(g), Edges(g), {x}, {}, e, t); }
      }
    }
  }

  /** Exactly when folding a child and retiring the edge hides no name from anyone, on any graph: whatever
      the child sees, its own table or the includer's holds, or the includer sees through another
      unmerged child. */
  lemma {:induction false} FoldIsHarmlessExactlyWhen(g: Snapshot, x: IncList, i: nat)
    requires WellFormed(g) && x in g && i < |g[x].list| && !g[x].merged[i]
    ensures KeepsVisible(g, FoldIfFinished(g, x, i)) <==> Harmless(g, x, i)
  {
    var c := g[x].list[i];
    if g[c].finished {
      if Harmless(g, x, i) {
        forall f, name: CString | f in g && Visible(g, f, name) ensures Visible(Fold(g, x, i), f, name) {
          SeenByParent(g, x, i, name);
          SeenAfterFold(g, x, i, name);
          OthersSeeThroughX(g, x, i, f, name);
        }
      } else {
        var name: CString :| Visible(g, c, name) && !Spared(g, x, i, name);
        SeenByParent(g, x, i, name);
        SeenAfterFold(g, x, i, name);
      }
    }
  }

  lemma {:induction false} OnlySelf(e: map<IncList, set<IncList>>, avoid: set<IncList>, x: IncList)
    requires x in e && e[x] == {}
    ensures forall t :: Reach(e, avoid, x, t) ==> t == x
  {
    forall t | Reach(e, avoid, x, t) ensures t == x { ReachFirstStep(e, avoid, x, t); }
  }

  // In particular a child that has nothing left to merge can be folded.
  lemma {:induction false} LeafFoldKeepsVisible(g: Snapshot, x: IncList, i: nat)
    requires WellFormed(g) && x in g && i < |g[x].list| && !g[x].merged[i]
    requires g[g[x].list[i]].finished ==> Live(g[g[x].list[i]]) == {}
    ensures KeepsVisible(g, FoldIfFinished(g, x, i))
  {
    if g[g[x].list[i]].finished { OnlySelf(Edges(g), {}, g[x].list[i]); }
    FoldIsHarmlessExactlyWhen(g, x, i);
  }

  // ---------------------------------------------------------------- all the folds of a lookup

  // Every fold that the search makes is harmless at the moment it is made.
  ghost predicate LookupHarmless(g: Snapshot, x: IncList, symbol: CString)
    requires WellFormed(g) && x in g
    decreases g.Keys - Checked(g), 0, 0
  {
    g[x].checked
    || (assert x in g.Keys - Checked(g);
        SearchHarmless(SetChecked(g, x, true), x, symbol))
  }

  ghost predicate SearchHarmless(g: Snapshot, x: IncList, symbol: CString)
    requires WellFormed(g) && x in g && g[x].checked
    decreases g.Keys - Checked(g), 2, 0
  {
    Defines(g[x], symbol) || ChildrenHarmless(g, x, symbol, 0)
  }

  ghost predicate ChildrenHarmless(g: Snapshot, x: IncList, symbol: CString, i: nat)
    requires WellFormed(g) && x in g && g[x].checked && i <= |g[x].list|
    decreases g.Keys - Checked(g), 1, |g[x].list| - i
  {
    if i == |g[x].list| then true
    else if g[x].merged[i] then ChildrenHarmless(g, x, symbol, i + 1)
    else
      var r := FDefined(g, g[x].list[i], symbol);
      var h := FoldIfFinished(r.g, x, i);
      SameShapeTransitive(g, r.g, h);
      assert Evolves(g[x], r.g[x]) && Evolves(g[x], h[x]);
      && LookupHarmless(g, g[x].list[i], symbol)
      && Harmless(r.g, x, i)
      && (r.hit.Some? || ChildrenHarmless(h, x, symbol, i + 1))
  }

  lemma {:induction false} LookupInvents(g: Snapshot, x: IncList, symbol: CString)
    requires WellFormed(g) && x in g && BlockedLack(g, symbol)
    ensures InventsNothing(g, FDefined(g, x, symbol).g)
  {
    forall f, name: CString | f in g && Visible(FDefined(g, x, symbol).g, f, name) ensures Visible(g, f, name) {
      LookupInventsNothing(g, x, symbol, f, name);
    }
  }

  lemma {:induction false} FoldInvents(g: Snapshot, x: IncList, i: nat)
    requires WellFormed(g) && x in g && i < |g[x].list| && !g[x].merged[i]
    ensures InventsNothing(g, FoldIfFinished(g, x, i))
  {
    forall f, name: CString | f in g && Visible(FoldIfFinished(g, x, i), f, name) ensures Visible(g, f, name) {
      FoldInventsNothing(g, x, i, f, name);
    }
  }

  lemma {:induction false} LoopInvents(g: Snapshot, x: IncList, symbol: CString, i: nat)
    requires InLoop(g, x, None, symbol, i)
    ensures InventsNothing(g, Children(g, x, symbol, i).g)
  {
    forall f, name: CString | f in g && Visible(Children(g, x, symbol, i).g, f, name) ensures Visible(g, f, name) {
      ChildrenInventNothing(g, x, symbol, i, f, name);
    }
  }

  lemma {:induction false} FlagsKeepVisible(g: Snapshot, x: IncList, b: bool)
    requires WellFormed(g) && x in g
    ensures forall f, name: CString :: f in g ==> (Visible(SetChecked(g, x, b), f, name) <==> Visible(g, f, name))
  {
    forall f, name: CString | f in g ensures Visible(SetChecked(g, x, b), f, name) <==> Visible(g, f, name) {
      FlagsDoNotShow(g, x, b, f, name);
    }
  }

  /** Whatever the graph, cyclic or not, and whatever the answer: a lookup leaves every file's set of visible
      names as it was if and only if each fold it makes is harmless at the moment it is made. */
  lemma {:induction false} LookupIsHarmlessExactlyWhen(g: Snapshot, x: IncList, symbol: CString)
    requires WellFormed(g) && x in g && BlockedLack(g, symbol)
    ensures KeepsVisible(g, FDefined(g, x, symbol).g) <==> LookupHarmless(g, x, symbol)
    decreases g.Keys - Checked(g), 0, 0
  {
    if !g[x].checked {
      var g1 := SetChecked(g, x, true);
      assert x in g.Keys - Checked(g);
      var r := Search(g1, x, symbol);
      FlagsKeepVisible(g, x, true);
      FlagsKeepVisible(r.g, x, false);
      if !Defines(g1[x], symbol) { ChildrenHarmlessExactly(g1, x, symbol, 0); }
    }
  }

  ghost predicate LoopExact(g: Snapshot, x: IncList, symbol: CString, i: nat) {
    && InLoop(g, x, None, symbol, i)
    && (KeepsVisible(g, Children(g, x, symbol, i).g) <==> ChildrenHarmless(g, x, symbol, i))
  }

  lemma {:induction false} LoopEndExact(g: Snapshot, x: IncList, symbol: CString)
    requires WellFormed(g) && x in g && InLoop(g, x, None, symbol, |g[x].list|)
    ensures LoopExact(g, x, symbol, |g[x].list|)
  {
  }

  lemma {:induction false} SkipMergedExact(g: Snapshot, x: IncList, symbol: CString, i: nat)
    requires InLoop(g, x, None, symbol, i) && i < |g[x].list| && g[x].merged[i] && LoopExact(g, x, symbol, i + 1)
    ensures LoopExact(g, x, symbol, i)
  {
  }

  lemma {:induction false} ChildrenHarmlessExactly(g: Snapshot, x: IncList, symbol: CString, i: nat)
    requires InLoop(g, x, None, symbol, i)
    ensures LoopExact(g, x, symbol, i)
    decreases g.Keys - Checked(g), 1, |g[x].list| - i, 2
  {
    if i == |g[x].list| {
      LoopEndExact(g, x, symbol);
    } else {
      NextHarmlessExactly(g, x, symbol, i);
    }
  }

  lemma {:induction false} NextHarmlessExactly(g: Snapshot, x: IncList, symbol: CString, i: nat)
    requires InLoop(g, x, None, symbol, i) && i < |g[x].list|
    ensures LoopExact(g, x, symbol, i)
    decreases g.Keys - Checked(g), 1, |g[x].list| - i, 1
  {
    if g[x].merged[i] {
      ChildrenHarmlessExactly(g, x, symbol, i + 1);
      SkipMergedExact(g, x, symbol, i);
    } else {
      ChildHarmlessExactly(g, x, symbol, i);
    }
  }

  lemma {:induction false} ChildHarmlessExactly(g: Snapshot, x: IncList, symbol: CString, i: nat)
    requires AtChild(g, x, symbol, i)
    ensures LoopExact(g, x, symbol, i)
    decreases g.Keys - Checked(g), 1, |g[x].list| - i, 0
  {
    var r, h := ChildrenTurn(g, x, symbol, i);
    TurnHarmlessExactly(g, x, symbol, i, r, h);
    if r.hit.None? {
      LoopInvents(h, x, symbol, i + 1);
      Squeeze(g, h, Children(h, x, symbol, i + 1).g);
      ChildrenHarmlessExactly(h, x, symbol, i + 1);
    }
  }

  lemma {:induction false} TurnHarmlessExactly(g: Snapshot, x: IncList, symbol: CString, i: nat, r: Outcome,
                                               h: Snapshot)
    requires AtChild(g, x, symbol, i) && r == FDefined(g, g[x].list[i], symbol) && r.g[x] == g[x]
    requires h == FoldIfFinished(r.g, x, i)
    ensures InventsNothing(g, h)
    ensures KeepsVisible(g, h) <==> LookupHarmless(g, g[x].list[i], symbol) && Harmless(r.g, x, i)
    decreases g.Keys - Checked(g), 0, 1
  {
    LookupInvents(g, g[x].list[i], symbol);
    FoldInvents(r.g, x, i);
    Squeeze(g, r.g, h);
    LookupIsHarmlessExactlyWhen(g, g[x].list[i], symbol);
    FoldIsHarmlessExactlyWhen(r.g, x, i);
  }
}
