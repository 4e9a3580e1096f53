/** undefine of config/makedepend/parse.c as a function on snapshots: delete the symbol wherever
    isdefined finds it, until it is nowhere to be found. */
module Undefinition {
  import opened Names
  import opened SymbolTable
  import opened Graph
  import opened Lookup

  // isdefined: the command-line table first, then the include graph.
  ghost function IsDefined(g: Snapshot, main: IncList, x: IncList, symbol: CString): (r: Outcome)
    requires WellFormed(g) && main in g && x in g
    ensures WellFormed(r.g) && SameShape(g, r.g)
    ensures r.hit.Some? ==> r.hit.value in g
  {
    if Defines(g[main], symbol) then Outcome(g, Some(main)) else FDefined(g, x, symbol)
  }

  ghost function Delete(g: Snapshot, f: IncList, symbol: CString): (h: Snapshot)
    requires WellFormed(g) && f in g && Defines(g[f], symbol)
    ensures WellFormed(h) && SameShape(g, h)
    ensures NamesOf(h[f].defs) == NamesOf(g[f].defs) - {symbol}
  {
    RemoveKeepsSorted(g[f].defs, IndexOf(g[f].defs, symbol));
    g[f := g[f].(defs := RemoveAt(g[f].defs, IndexOf(g[f].defs, symbol)))]
  }

  // ---------------------------------------------------------------- the termination measure

  ghost function LiveEdges(g: Snapshot): set<(IncList, nat)> {
    set f: IncList, i: nat | f in g && i < |g[f].merged| && !g[f].merged[i] :: (f, i)
  }

  ghost function Entries(g: Snapshot): set<(IncList, CString)> {
    set f: IncList, name: CString | f in g && name in NamesOf(g[f].defs) :: (f, name)
  }

  ghost predicate Shrinks(g: Snapshot, h: Snapshot) {
    LiveEdges(h) < LiveEdges(g) || (LiveEdges(h) == LiveEdges(g) && Entries(h) < Entries(g))
  }

  lemma {:induction false} LiveEdgesShrink(g: Snapshot, h: Snapshot)
    requires SameShape(g, h)
    ensures LiveEdges(h) <= LiveEdges(g)
    ensures LiveEdges(h) == LiveEdges(g) ==> forall f :: f in g ==> h[f].merged == g[f].merged
  {
    forall f, i: nat | f in g && i < |h[f].merged| && !h[f].merged[i] ensures !g[f].merged[i] && i < |g[f].merged| {
      assert Evolves(g[f], h[f]);
    }
    if LiveEdges(h) == LiveEdges(g) {
      forall f | f in g ensures h[f].merged == g[f].merged {
        assert Evolves(g[f], h[f]);
        forall i: nat | i < |g[f].merged| ensures h[f].merged[i] == g[f].merged[i] {
          if !g[f].merged[i] { assert (f, i) in LiveEdges(g); }
        }
      }
    }
  }

  // Only edges to files read to their ends are retired.
  ghost predicate RetiresRead(g: Snapshot, h: Snapshot, f: IncList)
    requires WellFormed(g) && f in g && f in h && |h[f].merged| == |g[f].merged|
  {
    forall j: nat :: j < |g[f].list| && h[f].merged[j] && !g[f].merged[j] ==> g[g[f].list[j]].finished
  }

  // A table loses no name, and changes only together with its merge marks.
  ghost predicate QuietAt(g: Snapshot, h: Snapshot, f: IncList)
    requires WellFormed(g)
  {
    && f in g && f in h && |h[f].merged| == |g[f].merged| && RetiresRead(g, h, f)
    && NamesOf(g[f].defs) <= NamesOf(h[f].defs)
    && (h[f].merged == g[f].merged ==> h[f] == g[f])
  }

  lemma {:induction false} NoFoldNoChange(g: Snapshot, x: IncList, symbol: CString, f: IncList)
    requires WellFormed(g) && x in g && f in g && BlockedLack(g, symbol)
    ensures QuietAt(g, FDefined(g, x, symbol).g, f)
    decreases g.Keys - Checked(g), 0, 0
  {
    if !g[x].checked {
      var g1 := SetChecked(g, x, true);
      assert x in g.Keys - Checked(g);
      if !Defines(g1[x], symbol) { ChildrenQuiet(g1, x, symbol, 0, f); }
    }
  }

  lemma {:induction false} ChildrenQuiet(g: Snapshot, x: IncList, symbol: CString, i: nat, f: IncList)
    requires InLoop(g, x, None, symbol, i) && f in g
    ensures QuietAt(g, Children(g, x, symbol, i).g, f)
    decreases g.Keys - Checked(g), 1, |g[x].list| - i, 1
  {
    if i < |g[x].list| {
      if g[x].merged[i] {
        ChildrenQuiet(g, x, symbol, i + 1, f);
      } else {
        ChildQuiet(g, x, symbol, i, f);
      }
    }
  }

  lemma {:induction false} ChildQuiet(g: Snapshot, x: IncList, symbol: CString, i: nat, f: IncList)
    requires AtChild(g, x, symbol, i) && f in g
    ensures QuietAt(g, Children(g, x, symbol, i).g, f)
    decreases g.Keys - Checked(g), 1, |g[x].list| - i, 0
  {
    var r, h := ChildrenTurn(g, x, symbol, i);
    NoFoldNoChange(g, g[x].list[i], symbol, f);
    QuietTurn(g, x, i, r.g, h, f);
    if r.hit.None? {
      ChildrenQuiet(h, x, symbol, i + 1, f);
      QuietTwice(g, h, Children(h, x, symbol, i + 1).g, f);
    }
  }

  lemma {:induction false} QuietTwice(g: Snapshot, h: Snapshot, k: Snapshot, f: IncList)
    requires WellFormed(g) && WellFormed(h) && SameShape(g, h) && WellFormed(k) && SameShape(h, k)
    requires QuietAt(g, h, f) && QuietAt(h, k, f)
    ensures QuietAt(g, k, f)
  {
    assert Evolves(g[f], h[f]) && Evolves(h[f], k[f]);
    forall j: nat | j < |g[f].list| && k[f].merged[j] && !g[f].merged[j] ensures g[g[f].list[j]].finished {
      assert Evolves(g[g[f].list[j]], h[g[f].list[j]]);
    }
  }

  lemma {:induction false} QuietTurn(g: Snapshot, x: IncList, i: nat, k: Snapshot, h: Snapshot, f: IncList)
    requires WellFormed(g) && WellFormed(k) && SameShape(g, k)
    requires x in g && i < |k[x].list| && k[x] == g[x] && !g[x].merged[i]
    requires QuietAt(g, k, f) && h == FoldIfFinished(k, x, i)
    ensures QuietAt(g, h, f) && SameShape(g, h)
  {
    SameShapeTransitive(g, k, h);
    assert Evolves(g[f], k[f]) && Evolves(k[f], h[f]);
    assert Evolves(g[g[x].list[i]], k[g[x].list[i]]);
    if f == x && h[x] != k[x] {
      MergeIsRightBiasedUnion(k[x].defs, k[k[x].list[i]].defs);
      assert h[x].merged[i] != g[x].merged[i];
    }
  }

  // One pass of the loop: an edge is retired, or else an entry goes and nothing else changes.
  lemma {:induction false} PassDecreases(g: Snapshot, main: IncList, x: IncList, symbol: CString)
    requires WellFormed(g) && main in g && x in g && Checked(g) == {}
    ensures var r := IsDefined(g, main, x, symbol);
      && Checked(r.g) == {}
      && (r.hit.None? ==> !Defines(r.g[main], symbol) && !Visible(r.g, x, symbol))
      && (r.hit.Some? ==>
            && Defines(r.g[r.hit.value], symbol)
            && var h := Delete(r.g, r.hit.value, symbol);
               && Checked(h) == {}
               && Shrinks(g, h))
  {
    PassAnswers(g, main, x, symbol);
    var r := IsDefined(g, main, x, symbol);
    if r.hit.Some? { PassShrinks(g, r.g, r.hit.value, main, x, symbol); }
  }

  lemma {:induction false} PassAnswers(g: Snapshot, main: IncList, x: IncList, symbol: CString)
    requires WellFormed(g) && main in g && x in g && Checked(g) == {}
    ensures var r := IsDefined(g, main, x, symbol);
      && Checked(r.g) == {}
      && (r.hit.None? ==> !Defines(r.g[main], symbol) && !Visible(r.g, x, symbol))
      && (r.hit.Some? ==> Defines(r.g[r.hit.value], symbol))
      && (LiveEdges(r.g) == LiveEdges(g) ==> r.g == g)
  {
    var r := IsDefined(g, main, x, symbol);
    if !Defines(g[main], symbol) {
      LookupFindsWhatIsVisible(g, x, symbol);
      if r.hit.None? { MainStillLacks(g, main, x, symbol); }
      if LiveEdges(r.g) == LiveEdges(g) {
        LiveEdgesShrink(g, r.g);
        forall f | f in g ensures r.g[f] == g[f] { NoFoldNoChange(g, x, symbol, f); }
      }
    }
  }

  lemma {:induction false} PassShrinks(g: Snapshot, k: Snapshot, f: IncList, main: IncList, x: IncList, symbol: CString)
    requires WellFormed(k) && SameShape(g, k) && Checked(k) == {} && f in k && Defines(k[f], symbol)
    requires LiveEdges(k) == LiveEdges(g) ==> k == g
    ensures var h := Delete(k, f, symbol);
      && Checked(h) == {}
      && Shrinks(g, h)
  {
    var h := Delete(k, f, symbol);
    ShapeSubgraph(k, h);
    LiveEdgesShrink(g, k);
    assert LiveEdges(h) == LiveEdges(k);
    DeleteShrinks(k, f, symbol);
  }

  lemma {:induction false} MainStillLacks(g: Snapshot, main: IncList, x: IncList, symbol: CString)
    requires WellFormed(g) && main in g && x in g && Checked(g) == {} && !Defines(g[main], symbol)
    requires FDefined(g, x, symbol).hit.None?
    ensures !Defines(FDefined(g, x, symbol).g[main], symbol)
  {
    FDefinedExact(g, x, symbol);
  }

  lemma {:induction false} DeleteShrinks(g: Snapshot, f: IncList, symbol: CString)
    requires WellFormed(g) && f in g && Defines(g[f], symbol)
    ensures Entries(Delete(g, f, symbol)) < Entries(g)
  {
    var h := Delete(g, f, symbol);
    assert (f, symbol) in Entries(g) && (f, symbol) !in Entries(h);
    forall p | p in Entries(h) ensures p in Entries(g) {
      assert p.1 in NamesOf(h[p.0].defs);
    }
  }

  // ---------------------------------------------------------------- undefine

  ghost function Undefined(g: Snapshot, main: IncList, x: IncList, symbol: CString): (h: Snapshot)
    requires WellFormed(g) && main in g && x in g && Checked(g) == {}
    ensures WellFormed(h) && SameShape(g, h) && Checked(h) == {}
    decreases LiveEdges(g), Entries(g)
  {
    var r := IsDefined(g, main, x, symbol);
    PassDecreases(g, main, x, symbol);
    if r.hit.None? then r.g
    else
      var k := Delete(r.g, r.hit.value, symbol);
      SameShapeTransitive(g, r.g, k);
      var h := Undefined(k, main, x, symbol);
      SameShapeTransitive(g, k, h);
      h
  }

  // One pass, and what is left to do after it.
  lemma {:induction false} UndefinedPass(g: Snapshot, main: IncList, x: IncList, symbol: CString)
    requires WellFormed(g) && main in g && x in g && Checked(g) == {}
    ensures var r := IsDefined(g, main, x, symbol);
      && Checked(r.g) == {}
      && (r.hit.None? ==> Undefined(g, main, x, symbol) == r.g)
      && (r.hit.Some? ==>
            && Defines(r.g[r.hit.value], symbol)
            && Checked(Delete(r.g, r.hit.value, symbol)) == {}
            && Undefined(g, main, x, symbol) == Undefined(Delete(r.g, r.hit.value, symbol), main, x, symbol))
  {
    PassDecreases(g, main, x, symbol);
  }

  /** undefine always comes to an end, and then the symbol is neither in the command-line table
      nor visible from the file. */
  lemma {:induction false} UndefinedIsOutOfSight(g: Snapshot, main: IncList, x: IncList, symbol: CString)
    requires WellFormed(g) && main in g && x in g && Checked(g) == {}
    ensures var h := Undefined(g, main, x, symbol);
      !Defines(h[main], symbol) && !Visible(h, x, symbol) && IsDefined(h, main, x, symbol).hit.None?
    decreases LiveEdges(g), Entries(g)
  {
    var r := IsDefined(g, main, x, symbol);
    PassDecreases(g, main, x, symbol);
    if r.hit.Some? {
      UndefinedIsOutOfSight(Delete(r.g, r.hit.value, symbol), main, x, symbol);
    } else {
      LookupFindsWhatIsVisible(r.g, x, symbol);
    }
  }

  /** undefine removes no other name from any table. */
  lemma {:induction false} UndefinedKeepsOtherNames(g: Snapshot, main: IncList, x: IncList, symbol: CString,
                                                    f: IncList, name: CString)
    requires WellFormed(g) && main in g && x in g && Checked(g) == {}
    requires f in g && Defines(g[f], name) && name != symbol
    ensures Defines(Undefined(g, main, x, symbol)[f], name)
    decreases LiveEdges(g), Entries(g)
  {
    var r := IsDefined(g, main, x, symbol);
    UndefinedPass(g, main, x, symbol);
    PassDecreases(g, main, x, symbol);
    PassKeepsOtherNames(g, main, x, symbol, f, name);
    if r.hit.Some? {
      UndefinedKeepsOtherNames(Delete(r.g, r.hit.value, symbol), main, x, symbol, f, name);
    }
  }

  lemma {:induction false} PassKeepsOtherNames(g: Snapshot, main: IncList, x: IncList, symbol: CString, f: IncList,
                                               name: CString)
    requires WellFormed(g) && main in g && x in g && Checked(g) == {}
    requires f in g && Defines(g[f], name) && name != symbol
    ensures var r := IsDefined(g, main, x, symbol);
      && Defines(r.g[f], name)
      && (r.hit.Some? && Defines(r.g[r.hit.value], symbol) ==>
            Defines(Delete(r.g, r.hit.value, symbol)[f], name))
  {
    if !Defines(g[main], symbol) { NoFoldNoChange(g, x, symbol, f); }
  }

  // undefine too retires edges to files read to their ends only.
  lemma {:induction false} UndefinedRetiresRead(g: Snapshot, main: IncList, x: IncList, symbol: CString, f: IncList)
    requires WellFormed(g) && main in g && x in g && Checked(g) == {} && f in g
    ensures |Undefined(g, main, x, symbol)[f].merged| == |g[f].merged|
    ensures RetiresRead(g, Undefined(g, main, x, symbol), f)
    decreases LiveEdges(g), Entries(g)
  {
    var r := IsDefined(g, main, x, symbol);
    UndefinedPass(g, main, x, symbol);
    PassDecreases(g, main, x, symbol);
    PassRetiresRead(g, main, x, symbol, f);
    if r.hit.Some? {
      var k := Delete(r.g, r.hit.value, symbol);
      UndefinedRetiresRead(k, main, x, symbol, f);
      RetiresReadTwice(g, k, Undefined(k, main, x, symbol), f);
    }
  }

  lemma {:induction false} PassRetiresRead(g: Snapshot, main: IncList, x: IncList, symbol: CString, f: IncList)
    requires WellFormed(g) && main in g && x in g && Checked(g) == {} && f in g
    ensures var r := IsDefined(g, main, x, symbol);
      && |r.g[f].merged| == |g[f].merged| && RetiresRead(g, r.g, f)
      && (r.hit.Some? && Defines(r.g[r.hit.value], symbol) ==>
            var k := Delete(r.g, r.hit.value, symbol); SameShape(g, k) && k[f].merged == r.g[f].merged)
  {
    var r := IsDefined(g, main, x, symbol);
    if !Defines(g[main], symbol) { NoFoldNoChange(g, x, symbol, f); }
    if r.hit.Some? && Defines(r.g[r.hit.value], symbol) {
      SameShapeTransitive(g, r.g, Delete(r.g, r.hit.value, symbol));
    }
  }

  lemma {:induction false} RetiresReadTwice(g: Snapshot, k: Snapshot, h: Snapshot, f: IncList)
    requires WellFormed(g) && WellFormed(k) && f in g && SameShape(g, k) && f in h
    requires |k[f].merged| == |g[f].merged| && RetiresRead(g, k, f)
    requires |h[f].merged| == |k[f].merged| && RetiresRead(k, h, f)
    ensures RetiresRead(g, h, f)
  {
    assert Evolves(g[f], k[f]);
    forall j: nat | j < |g[f].list| && h[f].merged[j] && !g[f].merged[j] ensures g[g[f].list[j]].finished {
      assert Evolves(g[g[f].list[j]], k[g[f].list[j]]);
    }
  }
}
