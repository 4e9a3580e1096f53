/** What a lookup that misses leaves behind. deftype makes one for every #include line: it asks for the rest of the
    line as if that were the name of a symbol, and from then on the source reaches no file that has been
    read. Tests then fold nothing, and an #undef takes its name from no header. */
module DrainedSources {
  import opened Names
  import opened SymbolTable
  import opened Graph
  import opened Lookup
  import opened Visibility
  import opened MissedLookups
  import opened Undefinition
  import C = CleanUndefs

  // Nothing is left to merge into f.
  ghost predicate Spent(g: Snapshot, f: IncList)
    requires WellFormed(g) && f in g
  {
    forall c :: c in Live(g[f]) ==> !g[c].finished
  }

  // Nor into any file that x reaches.
  ghost predicate Drained(g: Snapshot, x: IncList)
    requires WellFormed(g)
  {
    forall f :: f in g && Reach(Edges(g), {}, x, f) ==> Spent(g, f)
  }

  // ---------------------------------------------------------------- a miss drains the source

  lemma {:induction false} StaysSpent(g: Snapshot, h: Snapshot, f: IncList)
    requires WellFormed(g) && WellFormed(h) && SameShape(g, h) && f in g && Spent(g, f)
    ensures Spent(h, f)
  {
    ShapeSubgraph(g, h);
    assert Edges(h)[f] <= Edges(g)[f];
    forall c | c in Live(h[f]) ensures !h[c].finished { assert Evolves(g[c], h[c]); }
  }

  lemma {:induction false} FoldedIsSpent(g: Snapshot, x: IncList)
    requires WellFormed(g) && x in g && FoldedUpTo(g, x, |g[x].list|)
    ensures Spent(g, x)
  {
  }

  ghost predicate Spends(g: Snapshot, x: IncList, r: Outcome)
    requires WellFormed(r.g) && r.g.Keys == g.Keys
  {
    r.hit.None? ==> forall f :: f in g && Reach(Edges(g), Checked(g), x, f) ==> Spent(r.g, f)
  }

  ghost predicate SpendsFrom(g: Snapshot, x: IncList, i: nat, r: Outcome)
    requires WellFormed(g) && x in g && WellFormed(r.g) && r.g.Keys == g.Keys
  {
    r.hit.None? ==>
      && FoldedUpTo(r.g, x, |r.g[x].list|)
      && forall f :: f in g && FromChild(g, x, i, f) ==> Spent(r.g, f)
  }

  lemma {:induction false} MissSpends(g: Snapshot, x: IncList, symbol: CString)
    requires WellFormed(g) && x in g && BlockedLack(g, symbol)
    ensures Spends(g, x, FDefined(g, x, symbol))
    decreases g.Keys - Checked(g), 0, 0
  {
    if g[x].checked {
      forall f | Reach(Edges(g), Checked(g), x, f) ensures false { ReachEnds(Edges(g), Checked(g), x, f); }
    } else if !Defines(g[x], symbol) {
      var g1 := SetChecked(g, x, true);
      assert x in g.Keys - Checked(g);
      ChildrenSpend(g1, x, symbol, 0);
      FlagsSpend(g, x, Children(g1, x, symbol, 0));
    }
  }

  lemma {:induction false} FlagsSpend(g: Snapshot, x: IncList, r: Outcome)
    requires WellFormed(g) && x in g && !g[x].checked && WellFormed(r.g) && SameShape(SetChecked(g, x, true), r.g)
    requires SpendsFrom(SetChecked(g, x, true), x, 0, r)
    ensures Spends(g, x, Outcome(SetChecked(r.g, x, false), r.hit))
  {
    var g1, h := SetChecked(g, x, true), SetChecked(r.g, x, false);
    if r.hit.None? {
      ChildrenCoverReach(g, x);
      FoldedIsSpent(r.g, x);
      forall f | f in g && Reach(Edges(g), Checked(g), x, f) ensures Spent(h, f) {
        FlagsKeepSpent(r.g, x, false, f);
      }
    }
  }

  lemma {:induction false} FlagsKeepSpent(g: Snapshot, x: IncList, b: bool, f: IncList)
    requires WellFormed(g) && x in g && f in g && Spent(g, f)
    ensures Spent(SetChecked(g, x, b), f)
  {
    var h := SetChecked(g, x, b);
    assert forall c :: c in Live(h[f]) ==> c in Live(g[f]) && h[c].finished == g[c].finished;
  }

  lemma {:induction false} ChildrenSpend(g: Snapshot, x: IncList, symbol: CString, i: nat)
    requires InLoop(g, x, None, symbol, i) && FoldedUpTo(g, x, i)
    ensures SpendsFrom(g, x, i, Children(g, x, symbol, i))
    decreases g.Keys - Checked(g), 1, |g[x].list| - i, 1
  {
    if i < |g[x].list| {
      if g[x].merged[i] {
        SkipMergedReach(g, x, i);
        ChildrenSpend(g, x, symbol, i + 1);
      } else {
        ChildSpends(g, x, symbol, i);
      }
    }
  }

  lemma {:induction false} ChildSpends(g: Snapshot, x: IncList, symbol: CString, i: nat)
    requires AtChild(g, x, symbol, i) && FoldedUpTo(g, x, i)
    ensures SpendsFrom(g, x, i, Children(g, x, symbol, i))
    decreases g.Keys - Checked(g), 1, |g[x].list| - i, 0
  {
    var r, h := ChildrenTurn(g, x, symbol, i);
    if r.hit.None? {
      FDefinedExact(g, g[x].list[i], symbol);
      AfterChild(g, x, i, symbol, r, h);
      OneMoreFolded(g, x, i, r.g, h);
      MissSpends(g, g[x].list[i], symbol);
      ChildrenSpend(h, x, symbol, i + 1);
      TurnSpends(g, x, i, r, h, Children(h, x, symbol, i + 1));
    }
  }

  lemma {:induction false} TurnSpends(g: Snapshot, x: IncList, i: nat, r: Outcome, h: Snapshot, last: Outcome)
    requires WellFormed(g) && x in g && g[x].checked && i < |g[x].list| && !g[x].merged[i]
    requires WellFormed(r.g) && SameShape(g, r.g) && r.hit.None? && Spends(g, g[x].list[i], r)
    requires h == FoldIfFinished(r.g, x, i) && SameShape(g, h) && Checked(h) == Checked(g)
    requires forall f :: f in g && Touched(g, h, f) && f != x ==> Reach(Edges(g), Checked(g), g[x].list[i], f)
    requires forall j :: i < j < |g[x].list| ==> h[x].merged[j] == g[x].merged[j]
    requires WellFormed(last.g) && SameShape(h, last.g) && SpendsFrom(h, x, i + 1, last)
    ensures SpendsFrom(g, x, i, last)
  {
    if last.hit.None? {
      forall f | f in g && FromChild(g, x, i, f) ensures Spent(last.g, f) {
        if Reach(Edges(g), Checked(g), g[x].list[i], f) {
          StaysSpent(r.g, h, f);
          StaysSpent(h, last.g, f);
        } else {
          LaterPathSurvives(g, x, i, h, f);
        }
      }
    }
  }

  /** On any graph, cyclic or not, no file that the source reaches after a lookup that misses has an unmerged
      child that has been read to its end. */
  lemma {:induction false} MissDrains(g: Snapshot, x: IncList, symbol: CString)
    requires WellFormed(g) && x in g && Checked(g) == {} && FDefined(g, x, symbol).hit.None?
    ensures Drained(FDefined(g, x, symbol).g, x)
  {
    var h := FDefined(g, x, symbol).g;
    MissSpends(g, x, symbol);
    ShapeSubgraph(g, h);
    forall f | f in h && Reach(Edges(h), {}, x, f) ensures Spent(h, f) {
      ReachMonotone(Edges(h), Edges(g), {}, {}, x, f);
    }
  }

  // ---------------------------------------------------------------- lookups from a drained source

  /** Every lookup then leaves all tables and edges as they are. */
  lemma {:induction false} DrainedLookup(g: Snapshot, x: IncList, symbol: CString)
    requires WellFormed(g) && x in g && Checked(g) == {} && Drained(g, x)
    ensures FDefined(g, x, symbol).g == g
  {
    var h := FDefined(g, x, symbol).g;
    FDefinedExact(g, x, symbol);
    forall f | f in g ensures h[f] == g[f] {
      NoFoldNoChange(g, x, symbol, f);
      assert Evolves(g[f], h[f]);
      if Touched(g, h, f) { DrainedKeepsMarks(g, h, x, f); }
    }
  }

  lemma {:induction false} DrainedKeepsMarks(g: Snapshot, h: Snapshot, x: IncList, f: IncList)
    requires WellFormed(g) && Drained(g, x) && f in g && f in h && Evolves(g[f], h[f]) && RetiresRead(g, h, f)
    requires Reach(Edges(g), {}, x, f)
    ensures h[f].merged == g[f].merged
  {
    forall j: nat | j < |g[f].list| && !g[f].merged[j] ensures !h[f].merged[j] {
      assert g[f].list[j] in Live(g[f]);
    }
  }

  lemma {:induction false} DeleteKeepsDrained(g: Snapshot, x: IncList, f: IncList, symbol: CString)
    requires WellFormed(g) && x in g && f in g && Defines(g[f], symbol) && Drained(g, x)
    ensures Drained(Delete(g, f, symbol), x) && Edges(Delete(g, f, symbol)) == Edges(g)
  {
    var h := Delete(g, f, symbol);
    assert Edges(h) == Edges(g);
    forall u | u in h && Reach(Edges(h), {}, x, u) ensures Spent(h, u) {
      assert Spent(g, u) && Live(h[u]) == Live(g[u]);
    }
  }

  // Only the command line and files that x reaches have the name in their tables.
  ghost predicate HeldInReach(g: Snapshot, main: IncList, x: IncList, name: CString) {
    forall f :: f in g && Defines(g[f], name) ==> f == main || Reach(Edges(g), {}, x, f)
  }

  /** From a drained source an #undef takes the name, and only the name, out of every file's sight if and only if
      no table but that of the command line and those of the files reached holds it. */
  lemma {:induction false} DrainedUndefIsCleanExactlyWhen(g: Snapshot, main: IncList, x: IncList, name: CString)
    requires WellFormed(g) && main in g && x in g && Checked(g) == {} && Drained(g, x)
    ensures C.Clean(g, main, x, name) <==> HeldInReach(g, main, x, name)
    decreases LiveEdges(g), Entries(g)
  {
    if C.Clean(g, main, x, name) {
      forall f | f in g && Defines(g[f], name) && f != main ensures Reach(Edges(g), {}, x, f) {
        C.CleanNeedsReach(g, main, x, name, f);
      }
    }
    if HeldInReach(g, main, x, name) { HeldInReachIsClean(g, main, x, name); }
  }

  lemma {:induction false} HeldInReachIsClean(g: Snapshot, main: IncList, x: IncList, name: CString)
    requires WellFormed(g) && main in g && x in g && Checked(g) == {} && Drained(g, x)
    requires HeldInReach(g, main, x, name)
    ensures C.Clean(g, main, x, name)
    decreases LiveEdges(g), Entries(g)
  {
    var r := IsDefined(g, main, x, name);
    PassDecreases(g, main, x, name);
    DrainedLookup(g, x, name);
    assert r.g == g;
    if r.hit.None? {
      forall f | f in g ensures !Defines(g[f], name) { }
    } else {
      var k := Delete(g, r.hit.value, name);
      DeleteKeepsDrained(g, x, r.hit.value, name);
      forall f | f in k && Defines(k[f], name) ensures f == main || Reach(Edges(k), {}, x, f) {
        assert Defines(g[f], name);
      }
      HeldInReachIsClean(k, main, x, name);
    }
  }

  // It always leaves the other names where they are.
  lemma {:induction false} DrainedUndefIsTidy(g: Snapshot, main: IncList, x: IncList, name: CString)
    requires WellFormed(g) && main in g && x in g && Checked(g) == {} && Drained(g, x)
    ensures C.Tidy(g, main, x, name)
    decreases LiveEdges(g), Entries(g)
  {
    var r := IsDefined(g, main, x, name);
    PassDecreases(g, main, x, name);
    DrainedLookup(g, x, name);
    assert r.g == g;
    if r.hit.Some? {
      DeleteKeepsDrained(g, x, r.hit.value, name);
      DrainedUndefIsTidy(Delete(g, r.hit.value, name), main, x, name);
    }
  }

  // The name seen from a file out of reach.
  ghost predicate SeenElsewhere(g: Snapshot, main: IncList, x: IncList, f: IncList, name: CString) {
    exists u :: u in g && Reach(Edges(g), {}, f, u) && Defines(g[u], name) && u != main && !Reach(Edges(g), {}, x, u)
  }

  /** Whether it is clean or not, it leaves all other names in sight, and the name itself wherever a table out of
      the source's reach shows it. */
  lemma {:induction false} DrainedUndefLeaves(g: Snapshot, main: IncList, x: IncList, name: CString, f: IncList,
                                              z: CString)
    requires WellFormed(g) && main in g && x in g && Checked(g) == {} && Drained(g, x) && f in g
    ensures Visible(Undefined(g, main, x, name), f, z) <==>
      if z == name then SeenElsewhere(g, main, x, f, name) else Visible(g, f, z)
    decreases LiveEdges(g), Entries(g)
  {
    var r := IsDefined(g, main, x, name);
    PassDecreases(g, main, x, name);
    UndefinedPass(g, main, x, name);
    DrainedLookup(g, x, name);
    assert r.g == g;
    if r.hit.None? {
      assert SeenElsewhere(g, main, x, f, name) <==> Visible(g, f, name);
    } else {
      var k := Delete(g, r.hit.value, name);
      HitIsInReach(g, main, x, name);
      DeleteKeepsDrained(g, x, r.hit.value, name);
      DrainedUndefLeaves(k, main, x, name, f, z);
      C.DeleteHides(g, r.hit.value, name, f, z);
      ElsewhereStays(g, k, main, x, r.hit.value, f, name);
    }
  }

  lemma {:induction false} HitIsInReach(g: Snapshot, main: IncList, x: IncList, name: CString)
    requires WellFormed(g) && main in g && x in g && Checked(g) == {} && IsDefined(g, main, x, name).hit.Some?
    ensures var y := IsDefined(g, main, x, name).hit.value; y == main || Reach(Edges(g), {}, x, y)
  {
    if !Defines(g[main], name) { FDefinedExact(g, x, name); }
  }

  lemma {:induction false} ElsewhereStays(g: Snapshot, k: Snapshot, main: IncList, x: IncList, y: IncList, f: IncList,
                                          name: CString)
    requires WellFormed(g) && y in g && Defines(g[y], name) && k == Delete(g, y, name) && Edges(k) == Edges(g)
    requires y == main || Reach(Edges(g), {}, x, y)
    ensures SeenElsewhere(k, main, x, f, name) <==> SeenElsewhere(g, main, x, f, name)
  {
    forall u | u in g && u != y ensures Defines(k[u], name) <==> Defines(g[u], name) { }
    assert !Defines(k[y], name);
  }
}
