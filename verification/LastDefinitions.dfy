/** Which of several definitions of a name a lookup yields. merge2defines lets the entry of the included file win,
    so a lookup that misses replaces the entry of a file by that of the last file included that has one,
    even where the file has defined the name after including it. */
module LastDefinitions {
  import opened Names
  import opened SymbolTable
  import opened Graph
  import opened Lookup
  import opened MissedLookups
  import opened Visibility

  // The entry for a name in a table.
  ghost function EntryIn(es: seq<Symtab>, name: CString): Option<Symtab> {
    if name in NamesOf(es) then Some(es[IndexOf(es, name)]) else None
  }

  lemma {:induction false} MergedEntry(a: seq<Symtab>, b: seq<Symtab>, name: CString)
    requires Sorted(a) && Sorted(b)
    ensures EntryIn(Merged(a, b), name) == if EntryIn(b, name).Some? then EntryIn(b, name) else EntryIn(a, name)
  {
    MergeIsRightBiasedUnion(a, b);
  }

  // ---------------------------------------------------------------- the last definition

  ghost function Reached(g: Snapshot, x: IncList): set<IncList> {
    set f | f in g && Reach(Edges(g), {}, x, f)
  }

  lemma {:induction false} ReachedShrinks(g: Snapshot, x: IncList, c: IncList)
    requires WellFormed(g) && Acyclic(g) && x in g && c in Live(g[x])
    ensures Reached(g, c) < Reached(g, x)
  {
    ReachSelf(Edges(g), {}, x);
    assert x in Reached(g, x) && x !in Reached(g, c);
    forall f | f in Reached(g, c) ensures f in Reached(g, x) { ReachVia(Edges(g), {}, x, c, f); }
  }

  // The i-th child of x has been read and is still to be merged.
  ghost predicate ToFold(g: Snapshot, x: IncList, i: nat)
    requires WellFormed(g) && x in g && i < |g[x].list|
  {
    !g[x].merged[i] && g[g[x].list[i]].finished
  }

  // Of the first n children, those to be merged override the entry of x, each the ones before it.
  ghost function LastUpTo(g: Snapshot, x: IncList, name: CString, n: nat): (e: Option<Symtab>)
    requires WellFormed(g) && Acyclic(g) && x in g && n <= |g[x].list|
    decreases Reached(g, x), n
  {
    if n == 0 then EntryIn(g[x].defs, name)
    else if !ToFold(g, x, n - 1) then LastUpTo(g, x, name, n - 1)
    else
      ReachedShrinks(g, x, g[x].list[n - 1]);
      var e := LastUpTo(g, g[x].list[n - 1], name, |g[g[x].list[n - 1]].list|);
      if e.Some? then e else LastUpTo(g, x, name, n - 1)
  }

  /** The entry that all of them leave. */
  ghost function Last(g: Snapshot, x: IncList, name: CString): Option<Symtab>
    requires WellFormed(g) && Acyclic(g) && x in g
  {
    LastUpTo(g, x, name, |g[x].list|)
  }

  lemma {:induction false} NothingToFold(g: Snapshot, x: IncList, name: CString, n: nat)
    requires WellFormed(g) && Acyclic(g) && x in g && n <= |g[x].list| && FoldedUpTo(g, x, n)
    ensures LastUpTo(g, x, name, n) == EntryIn(g[x].defs, name)
    decreases n
  {
    if n > 0 { NothingToFold(g, x, name, n - 1); }
  }

  // ---------------------------------------------------------------- what a lookup leaves of it

  ghost predicate SameLists(g: Snapshot, h: Snapshot) {
    && WellFormed(g) && WellFormed(h) && h.Keys == g.Keys
    && forall f :: f in g ==> h[f].list == g[f].list && h[f].finished == g[f].finished
  }

  // f is as it was, or has nothing left to merge and holds its last definition.
  ghost predicate Recast(g: Snapshot, h: Snapshot, f: IncList, name: CString)
    requires SameLists(g, h) && Acyclic(g) && f in g
  {
    || (h[f].defs == g[f].defs && h[f].merged == g[f].merged)
    || (FoldedUpTo(h, f, |h[f].list|) && EntryIn(h[f].defs, name) == Last(g, f, name))
  }

  // So are all files but those in but.
  ghost predicate RecastBut(g: Snapshot, h: Snapshot, but: set<IncList>, name: CString)
    requires SameLists(g, h) && Acyclic(g)
  {
    forall f :: f in g && f !in but ==> Recast(g, h, f, name)
  }

  ghost predicate Avoids(g: Snapshot, but: set<IncList>, x: IncList) {
    forall b :: b in but ==> !Reach(Edges(g), {}, x, b)
  }

  lemma {:induction false} ChildAvoids(g: Snapshot, but: set<IncList>, x: IncList, c: IncList)
    requires WellFormed(g) && x in g && c in Live(g[x]) && Avoids(g, but, x)
    ensures c !in but && Avoids(g, but, c)
  {
    ReachSelf(Edges(g), {}, c);
    ReachVia(Edges(g), {}, x, c, c);
    forall b | b in but ensures !Reach(Edges(g), {}, c, b) {
      if Reach(Edges(g), {}, c, b) { ReachVia(Edges(g), {}, x, c, b); }
    }
  }

  /** The last definition stays the same. */
  lemma {:induction false} LastStays(g: Snapshot, h: Snapshot, but: set<IncList>, x: IncList, name: CString)
    requires SameLists(g, h) && Acyclic(g) && Acyclic(h) && RecastBut(g, h, but, name)
    requires x in g && x !in but && Avoids(g, but, x)
    ensures Last(h, x, name) == Last(g, x, name)
    decreases Reached(g, x), |g[x].list| + 1
  {
    if h[x].defs == g[x].defs && h[x].merged == g[x].merged {
      forall c | c in Live(g[x]) ensures c !in but && Avoids(g, but, c) { ChildAvoids(g, but, x, c); }
      LastUpToStays(g, h, but, x, name, |g[x].list|);
    } else {
      NothingToFold(h, x, name, |h[x].list|);
    }
  }

  lemma {:induction false} LastUpToStays(g: Snapshot, h: Snapshot, but: set<IncList>, x: IncList, name: CString, n: nat)
    requires SameLists(g, h) && Acyclic(g) && Acyclic(h) && RecastBut(g, h, but, name)
    requires x in g && n <= |g[x].list| && h[x].defs == g[x].defs && h[x].merged == g[x].merged
    requires forall c :: c in Live(g[x]) ==> c !in but && Avoids(g, but, c)
    ensures LastUpTo(h, x, name, n) == LastUpTo(g, x, name, n)
    decreases Reached(g, x), n
  {
    if n > 0 {
      LastUpToStays(g, h, but, x, name, n - 1);
      if ToFold(g, x, n - 1) {
        var c := g[x].list[n - 1];
        assert c in Live(g[x]);
        ReachedShrinks(g, x, c);
        LastStays(g, h, but, c, name);
      }
    }
  }

  lemma {:induction false} RecastTwice(g: Snapshot, h: Snapshot, k: Snapshot, but: set<IncList>, name: CString)
    requires SameLists(g, h) && SameLists(h, k) && Acyclic(g) && Acyclic(h)
    requires RecastBut(g, h, but, name) && RecastBut(h, k, but, name)
    requires forall f :: f in g && f !in but && Touched(h, k, f) ==> Avoids(g, but, f)
    ensures SameLists(g, k) && RecastBut(g, k, but, name)
  {
    forall f | f in g && f !in but ensures Recast(g, k, f, name) {
      if Touched(h, k, f) { LastStays(g, h, but, f, name); }
    }
  }

  // Flags are out of account.
  lemma {:induction false} FlagsKeepLast(g: Snapshot, x: IncList, b: bool, f: IncList, name: CString)
    requires WellFormed(g) && Acyclic(g) && x in g && f in g
    ensures Acyclic(SetChecked(g, x, b)) && Last(SetChecked(g, x, b), f, name) == Last(g, f, name)
  {
    var h := SetChecked(g, x, b);
    assert Edges(h) == Edges(g);
    LastStays(g, h, {}, f, name);
  }

  // ---------------------------------------------------------------- a lookup that misses

  // x has nothing left to merge and holds its last definition, and so do all files that were touched.
  ghost predicate LeavesLast(g: Snapshot, x: IncList, h: Snapshot, name: CString)
    requires WellFormed(g) && Acyclic(g) && x in g
  {
    && SameLists(g, h) && FoldedUpTo(h, x, |h[x].list|) && EntryIn(h[x].defs, name) == Last(g, x, name)
    && RecastBut(g, h, Checked(g), name)
  }

  /** On an acyclic graph of finished files a lookup that misses leaves in the table of x, for every name, the last
      definition in the order of the includes. */
  lemma {:induction false} MissLeavesLast(g: Snapshot, x: IncList, symbol: CString, name: CString)
    requires WellFormed(g) && x in g && BlockedLack(g, symbol)
    requires Acyclic(g) && FinishedClosed(g) && ClearOfBlocked(g, x)
    ensures var r := FDefined(g, x, symbol); r.hit.None? ==> LeavesLast(g, x, r.g, name)
    decreases g.Keys - Checked(g), 0, 0
  {
    ReachSelf(Edges(g), {}, x);
    assert !g[x].checked;
    var g1 := SetChecked(g, x, true);
    assert x in g.Keys - Checked(g);
    if !Defines(g1[x], symbol) {
      StartFolding(g, x, symbol);
      ChildrenLeaveLast(g1, x, symbol, 0, name);
      var r := Children(g1, x, symbol, 0);
      if r.hit.None? { FlagsLeaveLast(g, x, r.g, name); }
    }
  }

  lemma {:induction false} FlagsLeaveLast(g: Snapshot, x: IncList, k: Snapshot, name: CString)
    requires WellFormed(g) && Acyclic(g) && x in g && !g[x].checked && WellFormed(k)
    requires Acyclic(SetChecked(g, x, true)) && LeavesLast(SetChecked(g, x, true), x, k, name)
    ensures LeavesLast(g, x, SetChecked(k, x, false), name)
  {
    FlagsKeepLast(g, x, true, x, name);
    FlagsKeepOthers(g, x, k, name);
    assert FoldedUpTo(SetChecked(k, x, false), x, |k[x].list|);
  }

  lemma {:induction false} FlagsKeepOthers(g: Snapshot, x: IncList, k: Snapshot, name: CString)
    requires WellFormed(g) && Acyclic(g) && x in g && Acyclic(SetChecked(g, x, true))
    requires SameLists(SetChecked(g, x, true), k)
    requires RecastBut(SetChecked(g, x, true), k, Checked(g) + {x}, name)
    ensures SameLists(g, SetChecked(k, x, false))
    ensures RecastBut(g, SetChecked(k, x, false), Checked(g) + {x}, name)
  {
    FlagsKeepLists(g, x, k);
    forall f | f in g && f !in Checked(g) + {x} ensures Recast(g, SetChecked(k, x, false), f, name) {
      FlagsKeepRecast(g, x, k, f, name);
    }
  }

  lemma {:induction false} FlagsKeepLists(g: Snapshot, x: IncList, k: Snapshot)
    requires WellFormed(g) && x in g && SameLists(SetChecked(g, x, true), k)
    ensures SameLists(g, SetChecked(k, x, false))
  {
  }

  lemma {:induction false} FlagsKeepRecast(g: Snapshot, x: IncList, k: Snapshot, f: IncList, name: CString)
    requires WellFormed(g) && Acyclic(g) && x in g && f in g && Acyclic(SetChecked(g, x, true))
    requires SameLists(SetChecked(g, x, true), k) && Recast(SetChecked(g, x, true), k, f, name)
    ensures SameLists(g, SetChecked(k, x, false)) && Recast(g, SetChecked(k, x, false), f, name)
  {
    FlagsKeepLists(g, x, k);
    FlagsKeepLast(g, x, true, f, name);
  }

  ghost predicate LoopLeavesLast(g: Snapshot, x: IncList, symbol: CString, i: nat, name: CString) {
    && InLoop(g, x, None, symbol, i) && Acyclic(g)
    && (var r := Children(g, x, symbol, i); r.hit.None? ==> LeavesLast(g, x, r.g, name))
  }

  lemma {:induction false} ChildrenLeaveLast(g: Snapshot, x: IncList, symbol: CString, i: nat, name: CString)
    requires Folding(g, x, symbol, i)
    ensures LoopLeavesLast(g, x, symbol, i, name)
    decreases g.Keys - Checked(g), 1, |g[x].list| - i, 1
  {
    if i == |g[x].list| {
      NothingToFold(g, x, name, i);
    } else if g[x].merged[i] {
      FoldingGoesOn(g, x, symbol, i);
      ChildrenLeaveLast(g, x, symbol, i + 1, name);
      assert Children(g, x, symbol, i) == Children(g, x, symbol, i + 1);
    } else {
      ChildLeavesLast(g, x, symbol, i, name);
    }
  }

  lemma {:induction false} ChildLeavesLast(g: Snapshot, x: IncList, symbol: CString, i: nat, name: CString)
    requires Folding(g, x, symbol, i) && i < |g[x].list| && !g[x].merged[i]
    ensures LoopLeavesLast(g, x, symbol, i, name)
    decreases g.Keys - Checked(g), 1, |g[x].list| - i, 0
  {
    var c := g[x].list[i];
    assert c in Live(g[x]);
    var r, h := ChildrenTurn(g, x, symbol, i);
    if r.hit.None? {
      MissLeavesLast(g, c, symbol, name);
      TurnKeepsHypotheses(g, x, symbol, i, r, h);
      TurnLeavesLast(g, x, symbol, i, r.g, h, name);
      ChildrenLeaveLast(h, x, symbol, i + 1, name);
      var last := Children(h, x, symbol, i + 1);
      if last.hit.None? {
        LaterTouched(g, x, symbol, i, r, h, last);
        RecastTwice(g, h, last.g, Checked(g), name);
      }
    }
  }

  // What is touched later is reached from children of x, and so not from where files are being checked.
  lemma {:induction false} LaterTouched(g: Snapshot, x: IncList, symbol: CString, i: nat, r: Outcome, h: Snapshot,
                                        last: Outcome)
    requires Folding(g, x, symbol, i) && i < |g[x].list| && !g[x].merged[i]
    requires r == FDefined(g, g[x].list[i], symbol) && r.hit.None? && h == FoldIfFinished(r.g, x, i)
    requires InLoop(h, x, None, symbol, i + 1) && last == Children(h, x, symbol, i + 1)
    ensures Checked(h) == Checked(g)
    ensures forall f :: f in g && f !in Checked(g) && Touched(h, last.g, f) ==> Avoids(g, Checked(g), f)
  {
    FDefinedExact(g, g[x].list[i], symbol);
    AfterChild(g, x, i, symbol, r, h);
    ChildrenExact(h, x, symbol, i + 1);
    forall f | f in g && f !in Checked(g) && Touched(h, last.g, f) ensures Avoids(g, Checked(g), f) {
      assert FromChild(g, x, i, f);
      var j: nat :| i <= j < |g[x].list| && !g[x].merged[j] && Reach(Edges(g), Checked(g), g[x].list[j], f);
      assert g[x].list[j] in Live(g[x]);
      ReachMonotone(Edges(g), Edges(g), Checked(g), {}, g[x].list[j], f);
      forall b | b in Checked(g) ensures !Reach(Edges(g), {}, f, b) {
        if Reach(Edges(g), {}, f, b) { ReachTransitive(Edges(g), {}, g[x].list[j], f, b); }
      }
    }
  }

  // One turn of the loop: x has gone on to the definition that the child leaves, and keeps its last one.
  lemma {:induction false} TurnLeavesLast(g: Snapshot, x: IncList, symbol: CString, i: nat, k: Snapshot, h: Snapshot,
                                          name: CString)
    requires Folding(g, x, symbol, i) && i < |g[x].list| && !g[x].merged[i] && Folding(h, x, symbol, i + 1)
    requires WellFormed(k) && x in k && k[x] == g[x] && LeavesLast(g, g[x].list[i], k, name)
    requires h == FoldIfFinished(k, x, i)
    ensures SameLists(g, h) && RecastBut(g, h, Checked(g), name) && Last(h, x, name) == Last(g, x, name)
  {
    forall y | y in Live(g[x]) ensures y !in Checked(g) && Avoids(g, Checked(g), y) { ReachSelf(Edges(g), {}, y); }
    FoldRecasts(g, x, i, k, h, name);
    if g[g[x].list[i]].finished {
      NothingToFold(g, x, name, i);
      NothingToFold(h, x, name, i + 1);
      FoldTakesLast(g, x, i, k, h, name);
      TurnLeavesUpTo(g, x, i, h, name, |g[x].list|);
    } else {
      LastUpToStays(g, h, Checked(g), x, name, |g[x].list|);
    }
  }

  lemma {:induction false} FoldRecasts(g: Snapshot, x: IncList, i: nat, k: Snapshot, h: Snapshot, name: CString)
    requires WellFormed(g) && Acyclic(g) && x in g && g[x].checked && WellFormed(k) && x in k && i < |k[x].list|
    requires SameLists(g, k) && RecastBut(g, k, Checked(g), name) && h == FoldIfFinished(k, x, i)
    ensures SameLists(g, h) && RecastBut(g, h, Checked(g), name)
  {
    forall f | f in g ensures h[f].list == g[f].list && h[f].finished == g[f].finished { }
    forall f | f in g && f !in Checked(g) ensures Recast(g, h, f, name) { assert Recast(g, k, f, name); }
  }

  lemma {:induction false} FoldTakesLast(g: Snapshot, x: IncList, i: nat, k: Snapshot, h: Snapshot, name: CString)
    requires WellFormed(g) && Acyclic(g) && x in g && WellFormed(k) && x in k && k[x] == g[x] && i < |g[x].list|
    requires LeavesLast(g, g[x].list[i], k, name) && g[g[x].list[i]].finished && h == FoldIfFinished(k, x, i)
    ensures h[x].merged == g[x].merged[i := true]
    ensures var e := Last(g, g[x].list[i], name);
      EntryIn(h[x].defs, name) == if e.Some? then e else EntryIn(g[x].defs, name)
  {
    MergedEntry(k[x].defs, k[g[x].list[i]].defs, name);
  }

  lemma {:induction false} TurnLeavesUpTo(g: Snapshot, x: IncList, i: nat, h: Snapshot, name: CString, n: nat)
    requires SameLists(g, h) && Acyclic(g) && Acyclic(h) && x in g && i < n <= |g[x].list|
    requires RecastBut(g, h, Checked(g), name) && h[x].merged == g[x].merged[i := true]
    requires LastUpTo(h, x, name, i + 1) == LastUpTo(g, x, name, i + 1)
    requires forall c :: c in Live(g[x]) ==> c !in Checked(g) && Avoids(g, Checked(g), c)
    ensures LastUpTo(h, x, name, n) == LastUpTo(g, x, name, n)
    decreases n
  {
    if n > i + 1 {
      TurnLeavesUpTo(g, x, i, h, name, n - 1);
      if ToFold(g, x, n - 1) {
        var c := g[x].list[n - 1];
        assert c in Live(g[x]);
        LastStays(g, h, Checked(g), c, name);
      }
    }
  }

  // ---------------------------------------------------------------- when a definition is overridden

  // The i-th child of x, still to be merged, sees the name, and no later one does.
  ghost predicate LastToSee(g: Snapshot, x: IncList, name: CString, i: nat)
    requires WellFormed(g) && x in g
  {
    && i < |g[x].list| && ToFold(g, x, i) && Visible(g, g[x].list[i], name)
    && forall j: nat :: i < j < |g[x].list| && ToFold(g, x, j) ==> !Visible(g, g[x].list[j], name)
  }

  // A file that has been read has a last definition of exactly the names that it sees.
  lemma {:induction false} LastIsSeen(g: Snapshot, x: IncList, name: CString)
    requires WellFormed(g) && Acyclic(g) && FinishedClosed(g) && x in g && g[x].finished
    ensures Last(g, x, name).Some? <==> Visible(g, x, name)
    decreases Reached(g, x), |g[x].list| + 1
  {
    LastIsSeenUpTo(g, x, name, |g[x].list|);
    ReachSelf(Edges(g), {}, x);
    if Visible(g, x, name) {
      var u :| u in g && Reach(Edges(g), {}, x, u) && Defines(g[u], name);
      SeenThroughChild(g, x, u, name);
    }
    if i: nat :| i < |g[x].list| && ToFold(g, x, i) && Visible(g, g[x].list[i], name) {
      SeesWhatChildSees(g, x, i, name);
    }
  }

  lemma {:induction false} SeesWhatChildSees(g: Snapshot, x: IncList, i: nat, name: CString)
    requires WellFormed(g) && x in g && i < |g[x].list| && ToFold(g, x, i) && Visible(g, g[x].list[i], name)
    ensures Visible(g, x, name)
  {
    var u :| u in g && Reach(Edges(g), {}, g[x].list[i], u) && Defines(g[u], name);
    assert g[x].list[i] in Live(g[x]);
    ReachVia(Edges(g), {}, x, g[x].list[i], u);
  }

  lemma {:induction false} SeenThroughChild(g: Snapshot, x: IncList, u: IncList, name: CString)
    requires WellFormed(g) && FinishedClosed(g) && x in g && g[x].finished
    requires u in g && Reach(Edges(g), {}, x, u) && Defines(g[u], name)
    ensures Defines(g[x], name) ||
      exists i: nat :: i < |g[x].list| && ToFold(g, x, i) && Visible(g, g[x].list[i], name)
  {
    ReachFirstStep(Edges(g), {}, x, u);
    if u != x {
      var c :| c in Edges(g)[x] && Reach(Edges(g), {} + {x}, c, u);
      ReachMonotone(Edges(g), Edges(g), {} + {x}, {}, c, u);
      var i: nat :| i < |g[x].list| && !g[x].merged[i] && g[x].list[i] == c;
      assert ToFold(g, x, i) && Visible(g, c, name);
    }
  }

  lemma {:induction false} LastIsSeenUpTo(g: Snapshot, x: IncList, name: CString, n: nat)
    requires WellFormed(g) && Acyclic(g) && FinishedClosed(g) && x in g && n <= |g[x].list|
    ensures LastUpTo(g, x, name, n).Some? <==>
      Defines(g[x], name) || exists i: nat :: i < n && ToFold(g, x, i) && Visible(g, g[x].list[i], name)
    decreases Reached(g, x), n
  {
    if n > 0 {
      LastIsSeenUpTo(g, x, name, n - 1);
      if ToFold(g, x, n - 1) {
        var c := g[x].list[n - 1];
        assert c in Live(g[x]);
        ReachedShrinks(g, x, c);
        LastIsSeen(g, c, name);
      }
    }
  }

  lemma {:induction false} LastIsOf(g: Snapshot, x: IncList, name: CString, i: nat, n: nat)
    requires WellFormed(g) && Acyclic(g) && FinishedClosed(g) && x in g && LastToSee(g, x, name, i)
    requires i < n <= |g[x].list|
    ensures LastUpTo(g, x, name, n) == Last(g, g[x].list[i], name)
    decreases n
  {
    var c := g[x].list[n - 1];
    if ToFold(g, x, n - 1) {
      assert c in Live(g[x]);
      LastIsSeen(g, c, name);
    }
    if n > i + 1 { LastIsOf(g, x, name, i, n - 1); }
  }

  lemma {:induction false} LastIsOwn(g: Snapshot, x: IncList, name: CString, n: nat)
    requires WellFormed(g) && Acyclic(g) && FinishedClosed(g) && x in g && n <= |g[x].list|
    requires forall i: nat :: i < n && ToFold(g, x, i) ==> !Visible(g, g[x].list[i], name)
    ensures LastUpTo(g, x, name, n) == EntryIn(g[x].defs, name)
    decreases n
  {
    if n > 0 {
      LastIsOwn(g, x, name, n - 1);
      if ToFold(g, x, n - 1) { LastIsSeen(g, g[x].list[n - 1], name); }
    }
  }

  lemma {:induction false} SomeoneIsLast(g: Snapshot, x: IncList, name: CString, i: nat) returns (k: nat)
    requires WellFormed(g) && x in g && i < |g[x].list| && ToFold(g, x, i) && Visible(g, g[x].list[i], name)
    ensures LastToSee(g, x, name, k)
    decreases |g[x].list| - i
  {
    if j: nat :| i < j < |g[x].list| && ToFold(g, x, j) && Visible(g, g[x].list[j], name) {
      k := SomeoneIsLast(g, x, name, j);
    } else {
      k := i;
    }
  }

  /** A definition of x itself outlasts a lookup that misses, as every #include line makes one, if and only if the
      last file included that has been read and sees the name, if there is any, has the same entry for it. */
  lemma {:induction false} DefinitionOutlastsMissExactlyWhen(g: Snapshot, x: IncList, symbol: CString, name: CString,
                                                             e: Symtab)
    requires WellFormed(g) && x in g && Checked(g) == {} && Acyclic(g) && FinishedClosed(g)
    requires FDefined(g, x, symbol).hit.None? && EntryIn(g[x].defs, name) == Some(e)
    ensures var h := FDefined(g, x, symbol).g;
      && FDefined(h, x, name).hit == Some(x)
      && (EntryIn(h[x].defs, name) == Some(e) <==>
            forall i: nat :: LastToSee(g, x, name, i) ==> Last(g, g[x].list[i], name) == Some(e))
  {
    var h := FDefined(g, x, symbol).g;
    MissLeavesLast(g, x, symbol, name);
    if i: nat :| LastToSee(g, x, name, i) {
      LastIsOf(g, x, name, i, |g[x].list|);
      LastIsSeen(g, g[x].list[i], name);
      forall j: nat | LastToSee(g, x, name, j) ensures j == i { }
    } else {
      if i: nat :| i < |g[x].list| && ToFold(g, x, i) && Visible(g, g[x].list[i], name) {
        var k := SomeoneIsLast(g, x, name, i);
      }
      LastIsOwn(g, x, name, |g[x].list|);
    }
    FoundAtHome(h, x, name);
  }

  lemma {:induction false} FoundAtHome(g: Snapshot, x: IncList, name: CString)
    requires WellFormed(g) && x in g && !g[x].checked && Defines(g[x], name)
    ensures FDefined(g, x, name).hit == Some(x)
  {
  }

  // The source x has included the header c and then defined a name that c defines as well.
  ghost predicate DefinedAgain(g: Snapshot, x: IncList, c: IncList, inX: Symtab, inC: Symtab) {
    && WellFormed(g) && x in g && c in g && x != c && inX.s_name == inC.s_name
    && g[x] == FileView([inX], [c], [false], false, false) && g[c] == FileView([inC], [], [], false, true)
    && forall f :: f in g && f != x ==> g[f].list == []
  }

  lemma {:induction false} DefinedAgainIsTame(g: Snapshot, x: IncList, c: IncList, inX: Symtab, inC: Symtab)
    requires DefinedAgain(g, x, c, inX, inC)
    ensures Acyclic(g) && FinishedClosed(g)
  {
    assert Live(g[c]) == {};
    forall f, y | f in g && y in Live(g[f]) ensures f == x && y == c { }
    OnlySelf(Edges(g), {}, c);
  }

  /** It finds its own definition, but once anything else has been looked up in vain it finds that of the header. */
  lemma {:induction false} OlderDefinitionReturns(g: Snapshot, x: IncList, c: IncList, inX: Symtab, inC: Symtab,
                                                  symbol: CString)
    requires DefinedAgain(g, x, c, inX, inC) && Checked(g) == {} && inX != inC
    requires FDefined(g, x, symbol).hit.None?
    ensures var h, name := FDefined(g, x, symbol).g, inX.s_name;
      && FDefined(g, x, name).hit == Some(x) && EntryIn(g[x].defs, name) == Some(inX)
      && FDefined(h, x, name).hit == Some(x) && EntryIn(h[x].defs, name) == Some(inC)
  {
    var name := inX.s_name;
    DefinedAgainIsTame(g, x, c, inX, inC);
    assert inX in g[x].defs && inC in g[c].defs;
    assert Last(g, c, name) == Some(inC);
    assert Last(g, x, name) == Some(inC);
    MissLeavesLast(g, x, symbol, name);
    FoundAtHome(g, x, name);
    FoundAtHome(FDefined(g, x, symbol).g, x, name);
  }
}
