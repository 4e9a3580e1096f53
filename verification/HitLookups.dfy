/** Lookups that hit, on an acyclic graph: the way the search takes to the file that defines the symbol, what
    it folds together on that way, and exactly when it hides no name from any file. */
module HitLookups {
  import opened Names
  import opened SymbolTable
  import opened Graph
  import opened Lookup
  import opened Visibility
  import opened MissedLookups

  // ---------------------------------------------------------------- the way of the search

  // The i-th child of y is unmerged and sees the symbol, and no earlier unmerged one does.
  ghost predicate First(g: Snapshot, y: IncList, symbol: CString, i: nat)
    requires WellFormed(g) && y in g
  {
    && i < |g[y].list| && !g[y].merged[i] && Visible(g, g[y].list[i], symbol)
    && forall j: nat :: j < i && !g[y].merged[j] ==> !Visible(g, g[y].list[j], symbol)
  }

  lemma {:induction false} FirstIsUnique(g: Snapshot, y: IncList, symbol: CString, i: nat, j: nat)
    requires WellFormed(g) && y in g && First(g, y, symbol, i) && First(g, y, symbol, j)
    ensures i == j
  {
  }

  // Where the search goes on from y, unless it ends there.
  ghost function GoesTo(g: Snapshot, y: IncList, symbol: CString): (i: Option<nat>)
    requires WellFormed(g) && y in g
    ensures i.Some? ==> !Defines(g[y], symbol) && First(g, y, symbol, i.value)
    ensures i.None? ==> Defines(g[y], symbol) || forall j: nat :: !First(g, y, symbol, j)
  {
    if !Defines(g[y], symbol) && exists i: nat :: First(g, y, symbol, i) then
      var i: nat :| First(g, y, symbol, i);
      Some(i)
    else None
  }

  ghost function Next(g: Snapshot, y: IncList, symbol: CString): (c: Option<IncList>)
    requires WellFormed(g) && y in g
    ensures c.Some? ==> c.value in g
  {
    var i := GoesTo(g, y, symbol);
    if i.None? then None else Some(g[y].list[i.value])
  }

  ghost function Iterate<T>(next: T -> Option<T>, x: T, n: nat): Option<T>
    decreases n
  {
    if n == 0 then Some(x)
    else match next(x)
      case None => None
      case Some(y) => Iterate(next, y, n - 1)
  }

  // What holds where two iterations start, and wherever they agree, holds all along them.
  lemma {:induction false} IterationsAgree<T>(p: T -> Option<T>, q: T -> Option<T>, inside: iset<T>, x: T, n: nat)
    requires x in inside
    requires forall y :: y in inside ==> q(y) == p(y) && (p(y).Some? ==> p(y).value in inside)
    ensures Iterate(q, x, n) == Iterate(p, x, n)
    ensures Iterate(p, x, n).Some? ==> Iterate(p, x, n).value in inside
    decreases n
  {
    if n > 0 && p(x).Some? { IterationsAgree(p, q, inside, p(x).value, n - 1); }
  }

  ghost function Steps(g: Snapshot, symbol: CString): IncList -> Option<IncList> {
    y => if WellFormed(g) && y in g then Next(g, y, symbol) else None
  }

  // The file that the search comes to after n steps.
  ghost function Way(g: Snapshot, x: IncList, symbol: CString, n: nat): (y: Option<IncList>)
    requires WellFormed(g) && x in g
    ensures y.Some? ==> y.value in g
  {
    IterationsAgree(Steps(g, symbol), Steps(g, symbol), (iset y | y in g), x, n);
    Iterate(Steps(g, symbol), x, n)
  }

  // A name that the search looks over at y: y defines it, or sees it through a child searched in vain.
  ghost predicate Gathers(g: Snapshot, y: IncList, symbol: CString, name: CString)
    requires WellFormed(g) && y in g
  {
    || Defines(g[y], name)
    || (GoesTo(g, y, symbol).Some? && exists j: nat ::
          j < GoesTo(g, y, symbol).value && !g[y].merged[j] && Visible(g, g[y].list[j], name))
  }

  ghost predicate Gathered(g: Snapshot, x: IncList, symbol: CString, name: CString)
    requires WellFormed(g) && x in g
  {
    exists n: nat :: Way(g, x, symbol, n).Some? && Gathers(g, Way(g, x, symbol, n).value, symbol, name)
  }

  // x defines the name, or sees it through an unmerged child other than the i-th.
  ghost predicate SeesOtherwise(g: Snapshot, x: IncList, i: nat, name: CString)
    requires WellFormed(g) && x in g
  {
    Defines(g[x], name)
    || exists j: nat :: j < |g[x].list| && j != i && !g[x].merged[j] && Visible(g, g[x].list[j], name)
  }

  // If the child of y to which the search goes has been read to its end, whatever it sees is looked
  // over on the way from it, or y has it from elsewhere.
  ghost predicate StepSpared(g: Snapshot, y: IncList, symbol: CString)
    requires WellFormed(g) && y in g
  {
    var i := GoesTo(g, y, symbol);
    i.Some? && g[g[y].list[i.value]].finished ==> forall name: CString :: Visible(g, g[y].list[i.value], name) ==>
      Gathered(g, g[y].list[i.value], symbol, name) || SeesOtherwise(g, y, i.value, name)
  }

  /** So it is at every step of the way. */
  ghost predicate LosesNothing(g: Snapshot, x: IncList, symbol: CString)
    requires WellFormed(g) && x in g
  {
    forall n: nat :: Way(g, x, symbol, n).Some? ==> StepSpared(g, Way(g, x, symbol, n).value, symbol)
  }

  // A file from which the search does not go on.
  lemma {:induction false} WayEnds(g: Snapshot, x: IncList, symbol: CString)
    requires WellFormed(g) && x in g && GoesTo(g, x, symbol).None?
    ensures LosesNothing(g, x, symbol)
    ensures forall name: CString :: Gathered(g, x, symbol, name) <==> Defines(g[x], name)
  {
    assert Way(g, x, symbol, 0) == Some(x);
    forall name: CString | Defines(g[x], name) ensures Gathered(g, x, symbol, name) {
      assert Gathers(g, x, symbol, name);
    }
  }

  lemma {:induction false} WayGathers(g: Snapshot, x: IncList, symbol: CString, name: CString)
    requires WellFormed(g) && x in g && GoesTo(g, x, symbol).Some?
    ensures Gathered(g, x, symbol, name) <==>
      Gathers(g, x, symbol, name) || Gathered(g, g[x].list[GoesTo(g, x, symbol).value], symbol, name)
  {
    var c := g[x].list[GoesTo(g, x, symbol).value];
    assert Way(g, x, symbol, 0) == Some(x);
    if Gathered(g, c, symbol, name) {
      var n: nat :| Way(g, c, symbol, n).Some? && Gathers(g, Way(g, c, symbol, n).value, symbol, name);
      assert Way(g, x, symbol, n + 1) == Way(g, c, symbol, n);
    }
    if Gathered(g, x, symbol, name) && !Gathers(g, x, symbol, name) {
      var n: nat :| Way(g, x, symbol, n).Some? && Gathers(g, Way(g, x, symbol, n).value, symbol, name);
      assert Way(g, x, symbol, n) == Way(g, c, symbol, n - 1);
    }
  }

  lemma {:induction false} WayLoses(g: Snapshot, x: IncList, symbol: CString)
    requires WellFormed(g) && x in g && GoesTo(g, x, symbol).Some?
    ensures LosesNothing(g, x, symbol) <==>
      StepSpared(g, x, symbol) && LosesNothing(g, g[x].list[GoesTo(g, x, symbol).value], symbol)
  {
    var c := g[x].list[GoesTo(g, x, symbol).value];
    assert Way(g, x, symbol, 0) == Some(x);
    if LosesNothing(g, x, symbol) {
      forall n: nat | Way(g, c, symbol, n).Some? ensures StepSpared(g, Way(g, c, symbol, n).value, symbol) {
        assert Way(g, x, symbol, n + 1) == Way(g, c, symbol, n);
      }
    }
    if StepSpared(g, x, symbol) && LosesNothing(g, c, symbol) {
      forall n: nat | Way(g, x, symbol, n).Some? ensures StepSpared(g, Way(g, x, symbol, n).value, symbol) {
        if n > 0 { assert Way(g, x, symbol, n) == Way(g, c, symbol, n - 1); }
      }
    }
  }

  // ---------------------------------------------------------------- what else may change

  ghost predicate SameFile(v: FileView, w: FileView) {
    w.list == v.list && w.merged == v.merged && w.finished == v.finished && NamesOf(w.defs) == NamesOf(v.defs)
  }

  // The same names visible, and the same files where the symbol is, except for those in but.
  ghost predicate Agree(g: Snapshot, h: Snapshot, but: set<IncList>, symbol: CString) {
    && WellFormed(g) && WellFormed(h) && h.Keys == g.Keys
    && (forall f, name: CString :: f in g ==> (Visible(h, f, name) <==> Visible(g, f, name)))
    && forall f :: f in g && f !in but && Visible(g, f, symbol) ==> SameFile(g[f], h[f])
  }

  // c sees the symbol, and reaches none of the files that may differ.
  ghost predicate Beside(g: Snapshot, but: set<IncList>, c: IncList, symbol: CString) {
    c in g && Visible(g, c, symbol) && forall b :: b in but ==> !Reach(Edges(g), {}, c, b)
  }

  lemma {:induction false} BesideGoesOn(g: Snapshot, but: set<IncList>, c: IncList, symbol: CString, i: nat)
    requires WellFormed(g) && Beside(g, but, c, symbol) && First(g, c, symbol, i)
    ensures Beside(g, but, g[c].list[i], symbol)
  {
    assert g[c].list[i] in Live(g[c]);
    forall b | b in but ensures !Reach(Edges(g), {}, g[c].list[i], b) {
      if Reach(Edges(g), {}, g[c].list[i], b) { ReachVia(Edges(g), {}, c, g[c].list[i], b); }
    }
  }

  lemma {:induction false} AgreeHere(g: Snapshot, h: Snapshot, but: set<IncList>, c: IncList, symbol: CString)
    requires Agree(g, h, but, symbol) && Beside(g, but, c, symbol)
    ensures SameFile(g[c], h[c]) && GoesTo(g, c, symbol) == GoesTo(h, c, symbol)
    ensures forall name: CString :: Gathers(g, c, symbol, name) <==> Gathers(h, c, symbol, name)
    ensures forall i: nat, name: CString :: SeesOtherwise(g, c, i, name) <==> SeesOtherwise(h, c, i, name)
  {
    ReachSelf(Edges(g), {}, c);
    assert forall i: nat :: First(g, c, symbol, i) <==> First(h, c, symbol, i);
    var i, j := GoesTo(g, c, symbol), GoesTo(h, c, symbol);
    if i.Some? && j.Some? { FirstIsUnique(g, c, symbol, i.value, j.value); }
  }

  lemma {:induction false} AgreeOnStep(g: Snapshot, h: Snapshot, but: set<IncList>, c: IncList, symbol: CString)
    requires Agree(g, h, but, symbol) && Beside(g, but, c, symbol)
    ensures Next(h, c, symbol) == Next(g, c, symbol)
    ensures Next(g, c, symbol).Some? ==> Beside(g, but, Next(g, c, symbol).value, symbol)
  {
    AgreeHere(g, h, but, c, symbol);
    var i := GoesTo(g, c, symbol);
    if i.Some? { BesideGoesOn(g, but, c, symbol, i.value); }
  }

  lemma {:induction false} WaysAgree(g: Snapshot, h: Snapshot, but: set<IncList>, c: IncList, symbol: CString, n: nat)
    requires Agree(g, h, but, symbol) && Beside(g, but, c, symbol)
    ensures Way(h, c, symbol, n) == Way(g, c, symbol, n)
    ensures Way(g, c, symbol, n).Some? ==> Beside(g, but, Way(g, c, symbol, n).value, symbol)
  {
    var inside := iset y | y in g && Beside(g, but, y, symbol);
    forall y | y in inside
      ensures Steps(h, symbol)(y) == Steps(g, symbol)(y)
      ensures Steps(g, symbol)(y).Some? ==> Steps(g, symbol)(y).value in inside
    {
      AgreeOnStep(g, h, but, y, symbol);
    }
    IterationsAgree(Steps(g, symbol), Steps(h, symbol), inside, c, n);
  }

  lemma {:induction false} GatheredAgrees(g: Snapshot, h: Snapshot, but: set<IncList>, c: IncList, symbol: CString,
                                          name: CString)
    requires Agree(g, h, but, symbol) && Beside(g, but, c, symbol)
    ensures Gathered(g, c, symbol, name) <==> Gathered(h, c, symbol, name)
  {
    forall n: nat
      ensures Way(h, c, symbol, n) == Way(g, c, symbol, n)
      ensures Way(g, c, symbol, n).Some? ==>
        (Gathers(g, Way(g, c, symbol, n).value, symbol, name) <==> Gathers(h, Way(g, c, symbol, n).value, symbol, name))
    {
      WaysAgree(g, h, but, c, symbol, n);
      var y := Way(g, c, symbol, n);
      if y.Some? { AgreeHere(g, h, but, y.value, symbol); }
    }
  }

  lemma {:induction false} StepsAgree(g: Snapshot, h: Snapshot, but: set<IncList>, y: IncList, symbol: CString)
    requires Agree(g, h, but, symbol) && Beside(g, but, y, symbol)
    ensures StepSpared(g, y, symbol) <==> StepSpared(h, y, symbol)
  {
    AgreeHere(g, h, but, y, symbol);
    var i := GoesTo(g, y, symbol);
    if i.Some? {
      BesideGoesOn(g, but, y, symbol, i.value);
      var c := g[y].list[i.value];
      AgreeHere(g, h, but, c, symbol);
      forall name: CString ensures Gathered(g, c, symbol, name) <==> Gathered(h, c, symbol, name) {
        GatheredAgrees(g, h, but, c, symbol, name);
      }
    }
  }

  lemma {:induction false} LossesAgree(g: Snapshot, h: Snapshot, but: set<IncList>, c: IncList, symbol: CString)
    requires Agree(g, h, but, symbol) && Beside(g, but, c, symbol)
    ensures LosesNothing(g, c, symbol) <==> LosesNothing(h, c, symbol)
  {
    forall n: nat
      ensures Way(h, c, symbol, n) == Way(g, c, symbol, n)
      ensures Way(g, c, symbol, n).Some? ==>
        (StepSpared(g, Way(g, c, symbol, n).value, symbol) <==> StepSpared(h, Way(g, c, symbol, n).value, symbol))
    {
      WaysAgree(g, h, but, c, symbol, n);
      var y := Way(g, c, symbol, n);
      if y.Some? { StepsAgree(g, h, but, y.value, symbol); }
    }
  }

  // ---------------------------------------------------------------- the answer

  lemma {:induction false} ClearPath(g: Snapshot, x: IncList, t: IncList, n: nat)
    requires WellFormed(g) && ClearOfBlocked(g, x) && Path(Edges(g), {}, x, t, n)
    ensures Path(Edges(g), Checked(g), x, t, n)
  {
    ReachSelf(Edges(g), {}, x);
    if n > 0 {
      var z :| z in Edges(g)[x] && Path(Edges(g), {}, z, t, n - 1);
      forall b | b in Checked(g) ensures !Reach(Edges(g), {}, z, b) {
        if Reach(Edges(g), {}, z, b) { ReachVia(Edges(g), {}, x, z, b); }
      }
      ClearPath(g, z, t, n - 1);
    }
  }

  // Inside a search too the answer is whether the symbol is visible, where no cycle leads back.
  lemma {:induction false} AnswerIsVisibility(g: Snapshot, x: IncList, symbol: CString)
    requires WellFormed(g) && x in g && BlockedLack(g, symbol) && ClearOfBlocked(g, x)
    ensures FDefined(g, x, symbol).hit.Some? <==> Visible(g, x, symbol)
  {
    FDefinedExact(g, x, symbol);
    var r := FDefined(g, x, symbol);
    if r.hit.Some? {
      ReachMonotone(Edges(g), Edges(g), Checked(g), {}, x, r.hit.value);
    } else if Visible(g, x, symbol) {
      var t :| t in g && Reach(Edges(g), {}, x, t) && Defines(g[t], symbol);
      var n: nat :| Path(Edges(g), {}, x, t, n);
      ClearPath(g, x, t, n);
      assert Reach(Edges(g), Checked(g), x, t);
    }
  }

  // ---------------------------------------------------------------- children searched in vain

  ghost predicate Searching(g: Snapshot, x: IncList, symbol: CString, i: nat) {
    Folding(g, x, symbol, i) && GoesTo(g, x, symbol).Some? && i <= GoesTo(g, x, symbol).value
  }

  // The i-th child has been searched in vain: what it sees is in the table of x, if the child has been
  // read to its end.
  ghost predicate Grown(g: Snapshot, h: Snapshot, x: IncList, i: nat)
    requires WellFormed(g) && x in g && x in h && i < |g[x].list|
  {
    if g[g[x].list[i]].finished then
      && h[x].list == g[x].list && h[x].finished == g[x].finished && h[x].merged == g[x].merged[i := true]
      && forall name: CString :: Defines(h[x], name) <==> Defines(g[x], name) || Visible(g, g[x].list[i], name)
    else h[x] == g[x]
  }

  // What a missing lookup touches does not see the symbol.
  lemma {:induction false} MissSparesTheWay(g: Snapshot, c: IncList, symbol: CString, f: IncList)
    requires WellFormed(g) && c in g && BlockedLack(g, symbol) && !Visible(g, c, symbol)
    requires f in g && Visible(g, f, symbol)
    ensures SameFile(g[f], FDefined(g, c, symbol).g[f])
  {
    var r := FDefined(g, c, symbol);
    FDefinedExact(g, c, symbol);
    if Touched(g, r.g, f) {
      ReachMonotone(Edges(g), Edges(g), Checked(g), {}, c, f);
      var t :| t in g && Reach(Edges(g), {}, f, t) && Defines(g[t], symbol);
      ReachTransitive(Edges(g), {}, c, f, t);
    }
    assert Evolves(g[f], r.g[f]);
  }

  // After a miss, a file that has been read to its end has all that it sees in its table.
  lemma {:induction false} MissCollects(g: Snapshot, c: IncList, symbol: CString, name: CString)
    requires WellFormed(g) && c in g && BlockedLack(g, symbol) && g[c].finished
    requires Acyclic(g) && FinishedClosed(g) && ClearOfBlocked(g, c)
    requires FDefined(g, c, symbol).hit.None?
    ensures Defines(FDefined(g, c, symbol).g[c], name) <==> Visible(g, c, name)
  {
    var k := FDefined(g, c, symbol).g;
    MissKeepsVisible(g, c, symbol);
    LookupInvents(g, c, symbol);
    OnlySelf(Edges(k), {}, c);
    ReachSelf(Edges(k), {}, c);
    assert Visible(k, c, name) <==> Visible(g, c, name);
  }

  lemma {:induction false} MissGrows(g: Snapshot, x: IncList, symbol: CString, i: nat, r: Outcome, h: Snapshot)
    requires Folding(g, x, symbol, i) && i < |g[x].list| && !g[x].merged[i]
    requires r == FDefined(g, g[x].list[i], symbol) && r.hit.None? && r.g[x] == g[x] && h == FoldIfFinished(r.g, x, i)
    ensures Grown(g, h, x, i)
  {
    var c := g[x].list[i];
    assert c in Live(g[x]);
    assert Evolves(g[c], r.g[c]);
    if g[c].finished {
      FoldedTable(r.g, x, i);
      forall name: CString ensures Defines(r.g[c], name) <==> Visible(g, c, name) {
        MissCollects(g, c, symbol, name);
      }
    }
  }

  lemma {:induction false} MissAgrees(g: Snapshot, x: IncList, symbol: CString, i: nat, r: Outcome, h: Snapshot)
    requires Folding(g, x, symbol, i) && i < |g[x].list| && !g[x].merged[i] && !Visible(g, g[x].list[i], symbol)
    requires r == FDefined(g, g[x].list[i], symbol) && r.hit.None? && r.g[x] == g[x]
    requires h == FoldIfFinished(r.g, x, i) && InLoop(h, x, None, symbol, i + 1)
    ensures Agree(g, h, {x}, symbol) && Folding(h, x, symbol, i + 1)
  {
    var c := g[x].list[i];
    assert c in Live(g[x]);
    TurnKeepsVisible(g, x, symbol, i, r, h);
    TurnHarmlessExactly(g, x, symbol, i, r, h);
    forall f | f in g && f != x && Visible(g, f, symbol) ensures SameFile(g[f], h[f]) {
      MissSparesTheWay(g, c, symbol, f);
    }
  }

  // x goes on as before, and what it sees besides is the same, though its table has grown.
  ghost predicate Growing(g: Snapshot, h: Snapshot, x: IncList, symbol: CString, i: nat) {
    && Agree(g, h, {x}, symbol) && x in g && i < |g[x].list| && !g[x].merged[i] && Grown(g, h, x, i)
    && GoesTo(g, x, symbol).Some? && i < GoesTo(g, x, symbol).value
  }

  lemma {:induction false} GrownGoesOn(g: Snapshot, h: Snapshot, x: IncList, symbol: CString, i: nat)
    requires Growing(g, h, x, symbol, i)
    ensures GoesTo(h, x, symbol) == GoesTo(g, x, symbol)
  {
    var f := GoesTo(g, x, symbol).value;
    assert !Visible(g, g[x].list[i], symbol);
    assert h[x].list == g[x].list && h[x].merged[f] == g[x].merged[f];
    assert First(h, x, symbol, f);
    assert GoesTo(h, x, symbol).Some?;
    FirstIsUnique(h, x, symbol, f, GoesTo(h, x, symbol).value);
  }

  lemma {:induction false} GrownSees(g: Snapshot, h: Snapshot, x: IncList, symbol: CString, i: nat, name: CString)
    requires Growing(g, h, x, symbol, i)
    ensures Gathers(h, x, symbol, name) <==> Gathers(g, x, symbol, name)
    ensures var f := GoesTo(g, x, symbol).value; SeesOtherwise(h, x, f, name) <==> SeesOtherwise(g, x, f, name)
  {
    GrownGoesOn(g, h, x, symbol, i);
    assert h[x].list == g[x].list;
    assert forall j: nat :: j < |g[x].list| && j != i ==> h[x].merged[j] == g[x].merged[j];
  }

  // None of the children leads back to x.
  lemma {:induction false} ChildIsBeside(g: Snapshot, x: IncList, symbol: CString, i: nat)
    requires WellFormed(g) && Acyclic(g) && x in g && First(g, x, symbol, i)
    ensures Beside(g, {x}, g[x].list[i], symbol)
  {
    assert g[x].list[i] in Live(g[x]);
  }

  lemma {:induction false} GrownLoses(g: Snapshot, h: Snapshot, x: IncList, symbol: CString, i: nat)
    requires Growing(g, h, x, symbol, i) && Acyclic(g)
    ensures LosesNothing(h, x, symbol) <==> LosesNothing(g, x, symbol)
  {
    var f := GoesTo(g, x, symbol).value;
    var c := g[x].list[f];
    GrownGoesOn(g, h, x, symbol, i);
    ChildIsBeside(g, x, symbol, f);
    AgreeHere(g, h, {x}, c, symbol);
    forall name: CString
      ensures SeesOtherwise(h, x, f, name) <==> SeesOtherwise(g, x, f, name)
      ensures Gathered(h, c, symbol, name) <==> Gathered(g, c, symbol, name)
    {
      GrownSees(g, h, x, symbol, i, name);
      GatheredAgrees(g, h, {x}, c, symbol, name);
    }
    WayLoses(g, x, symbol);
    WayLoses(h, x, symbol);
    LossesAgree(g, h, {x}, c, symbol);
  }

  lemma {:induction false} GrownGathers(g: Snapshot, h: Snapshot, x: IncList, symbol: CString, i: nat, name: CString)
    requires Growing(g, h, x, symbol, i) && Acyclic(g)
    ensures Gathered(h, x, symbol, name) <==> Gathered(g, x, symbol, name)
  {
    var f := GoesTo(g, x, symbol).value;
    GrownGoesOn(g, h, x, symbol, i);
    ChildIsBeside(g, x, symbol, f);
    GrownSees(g, h, x, symbol, i, name);
    WayGathers(g, x, symbol, name);
    WayGathers(h, x, symbol, name);
    GatheredAgrees(g, h, {x}, g[x].list[f], symbol, name);
  }

  // ---------------------------------------------------------------- the child that hits

  // What a lookup that hits has come to: nothing hidden exactly when nothing is lost on the way, and the
  // names it has gathered in the table of x, if x has been read to its end.
  ghost predicate HitOutcome(g: Snapshot, x: IncList, symbol: CString, r: Outcome)
    requires WellFormed(g) && x in g
  {
    && r.hit.Some? && x in r.g
    && (KeepsVisible(g, r.g) <==> LosesNothing(g, x, symbol))
    && (g[x].finished ==> forall name: CString :: Defines(r.g[x], name) <==> Gathered(g, x, symbol, name))
  }

  lemma {:induction false} MissTransfers(g: Snapshot, h: Snapshot, x: IncList, symbol: CString, i: nat, r: Outcome)
    requires Growing(g, h, x, symbol, i) && Acyclic(g) && HitOutcome(h, x, symbol, r)
    ensures HitOutcome(g, x, symbol, r)
  {
    GrownLoses(g, h, x, symbol, i);
    forall name: CString ensures Gathered(h, x, symbol, name) <==> Gathered(g, x, symbol, name) {
      GrownGathers(g, h, x, symbol, i, name);
    }
  }

  // On an acyclic graph a child sees nothing through its parent.
  lemma {:induction false} SeesWithoutParent(g: Snapshot, x: IncList, i: nat, name: CString)
    requires WellFormed(g) && Acyclic(g) && x in g
    ensures Defines(g[x], name) || SeesWithout(g, x, i, name) <==> SeesOtherwise(g, x, i, name)
  {
    if SeesWithout(g, x, i, name) {
      var j: nat, t: IncList :| j < |g[x].list| && j != i && !g[x].merged[j] && t in g
        && Reach(Edges(g), {x}, g[x].list[j], t) && Defines(g[t], name);
      ReachMonotone(Edges(g), Edges(g), {x}, {}, g[x].list[j], t);
      assert Visible(g, g[x].list[j], name);
    }
    if SeesOtherwise(g, x, i, name) && !Defines(g[x], name) {
      var j: nat :| j < |g[x].list| && j != i && !g[x].merged[j] && Visible(g, g[x].list[j], name);
      var t :| t in g && Reach(Edges(g), {}, g[x].list[j], t) && Defines(g[t], name);
      var n: nat :| Path(Edges(g), {}, g[x].list[j], t, n);
      assert g[x].list[j] in Live(g[x]);
      AvoidsOrMeets(Edges(g), x, g[x].list[j], t, n);
      assert Reach(Edges(g), {x}, g[x].list[j], t);
    }
  }

  // The fold of the child that hit is harmless exactly when the step to it is spared.
  lemma {:induction false} HarmlessWhenSpared(g: Snapshot, k: Snapshot, x: IncList, symbol: CString, i: nat)
    requires WellFormed(g) && WellFormed(k) && SameShape(g, k) && Acyclic(g) && x in g && k[x] == g[x]
    requires GoesTo(g, x, symbol) == Some(i) && KeepsVisible(g, k) && InventsNothing(g, k)
    requires g[g[x].list[i]].finished ==>
      forall name: CString :: Defines(k[g[x].list[i]], name) <==> Gathered(g, g[x].list[i], symbol, name)
    ensures Harmless(k, x, i) <==> StepSpared(g, x, symbol)
  {
    var c := g[x].list[i];
    assert Evolves(g[c], k[c]);
    ShapeKeepsHypotheses(g, k);
    forall name: CString ensures Defines(k[x], name) || SeesWithout(k, x, i, name) <==> SeesOtherwise(g, x, i, name) {
      SeesWithoutParent(k, x, i, name);
    }
  }

  lemma {:induction false} HitTurn(g: Snapshot, x: IncList, symbol: CString, i: nat, r: Outcome, h: Snapshot)
    requires Folding(g, x, symbol, i) && GoesTo(g, x, symbol) == Some(i)
    requires r == FDefined(g, g[x].list[i], symbol) && r.g[x] == g[x] && h == FoldIfFinished(r.g, x, i)
    requires HitOutcome(g, g[x].list[i], symbol, r)
    ensures HitOutcome(g, x, symbol, Outcome(h, r.hit))
  {
    HitKeepsExactly(g, x, symbol, i, r, h);
    if g[x].finished {
      HitTable(g, x, symbol, i, r, h);
      forall name: CString ensures Defines(h[x], name) <==> Gathered(g, x, symbol, name) {
        GathersHere(g, x, symbol, i, name);
      }
    }
  }

  lemma {:induction false} HitKeepsExactly(g: Snapshot, x: IncList, symbol: CString, i: nat, r: Outcome, h: Snapshot)
    requires Folding(g, x, symbol, i) && GoesTo(g, x, symbol) == Some(i)
    requires r == FDefined(g, g[x].list[i], symbol) && r.g[x] == g[x] && h == FoldIfFinished(r.g, x, i)
    requires HitOutcome(g, g[x].list[i], symbol, r)
    ensures KeepsVisible(g, h) <==> LosesNothing(g, x, symbol)
  {
    LookupInvents(g, g[x].list[i], symbol);
    FoldInvents(r.g, x, i);
    Squeeze(g, r.g, h);
    FoldIsHarmlessExactlyWhen(r.g, x, i);
    WayLoses(g, x, symbol);
    if KeepsVisible(g, r.g) { HarmlessWhenSpared(g, r.g, x, symbol, i); }
  }

  lemma {:induction false} HitTable(g: Snapshot, x: IncList, symbol: CString, i: nat, r: Outcome, h: Snapshot)
    requires Folding(g, x, symbol, i) && i < |g[x].list| && !g[x].merged[i] && g[x].finished
    requires WellFormed(r.g) && SameShape(g, r.g) && r.g[x] == g[x] && h == FoldIfFinished(r.g, x, i)
    ensures g[g[x].list[i]].finished
    ensures NamesOf(h[x].defs) == NamesOf(g[x].defs) + NamesOf(r.g[g[x].list[i]].defs)
  {
    var c := g[x].list[i];
    assert c in Live(g[x]);
    assert Evolves(g[c], r.g[c]);
    FoldedTable(r.g, x, i);
  }

  lemma {:induction false} GathersHere(g: Snapshot, x: IncList, symbol: CString, i: nat, name: CString)
    requires Folding(g, x, symbol, i) && GoesTo(g, x, symbol) == Some(i) && g[x].finished
    ensures Gathered(g, x, symbol, name) <==> Defines(g[x], name) || Gathered(g, g[x].list[i], symbol, name)
  {
    WayGathers(g, x, symbol, name);
    NothingBefore(g, x, symbol, i);
  }

  // A file read to its end has no unmerged child left in front of the loop.
  lemma {:induction false} NothingBefore(g: Snapshot, x: IncList, symbol: CString, i: nat)
    requires Folding(g, x, symbol, i) && g[x].finished && i <= |g[x].list|
    ensures forall j: nat :: j < i ==> g[x].merged[j]
  {
    forall j: nat | j < i ensures g[x].merged[j] {
      assert g[x].list[j] in Live(g[x]) ==> g[g[x].list[j]].finished;
    }
  }

  lemma {:induction false} ChildrenHit(g: Snapshot, x: IncList, symbol: CString, i: nat)
    requires Searching(g, x, symbol, i)
    ensures HitOutcome(g, x, symbol, Children(g, x, symbol, i))
    decreases g.Keys - Checked(g), 1, |g[x].list| - i, 1
  {
    if g[x].merged[i] {
      SearchingGoesOn(g, x, symbol, i);
      ChildrenHit(g, x, symbol, i + 1);
    } else {
      ChildHits(g, x, symbol, i);
    }
  }

  lemma {:induction false} SearchingGoesOn(g: Snapshot, x: IncList, symbol: CString, i: nat)
    requires Searching(g, x, symbol, i) && g[x].merged[i]
    ensures Searching(g, x, symbol, i + 1) && Children(g, x, symbol, i) == Children(g, x, symbol, i + 1)
  {
    FoldingGoesOn(g, x, symbol, i);
  }

  lemma {:induction false} ChildHits(g: Snapshot, x: IncList, symbol: CString, i: nat)
    requires Searching(g, x, symbol, i) && !g[x].merged[i]
    ensures HitOutcome(g, x, symbol, Children(g, x, symbol, i))
    decreases g.Keys - Checked(g), 1, |g[x].list| - i, 0
  {
    var c := g[x].list[i];
    assert c in Live(g[x]);
    var r, h := ChildrenTurn(g, x, symbol, i);
    AnswerIsVisibility(g, c, symbol);
    if i == GoesTo(g, x, symbol).value {
      HitExact(g, c, symbol);
      HitTurn(g, x, symbol, i, r, h);
    } else {
      assert !Visible(g, c, symbol);
      MissAgrees(g, x, symbol, i, r, h);
      MissGrows(g, x, symbol, i, r, h);
      GrownGoesOn(g, h, x, symbol, i);
      ChildrenHit(h, x, symbol, i + 1);
      MissTransfers(g, h, x, symbol, i, Children(h, x, symbol, i + 1));
    }
  }

  lemma {:induction false} HitExact(g: Snapshot, x: IncList, symbol: CString)
    requires WellFormed(g) && x in g && BlockedLack(g, symbol) && Visible(g, x, symbol)
    requires Acyclic(g) && FinishedClosed(g) && ClearOfBlocked(g, x)
    ensures HitOutcome(g, x, symbol, FDefined(g, x, symbol))
    decreases g.Keys - Checked(g), 0, 0
  {
    ReachSelf(Edges(g), {}, x);
    assert !g[x].checked;
    if Defines(g[x], symbol) {
      LocalHit(g, x, symbol);
      WayEnds(g, x, symbol);
    } else {
      var g1 := SetChecked(g, x, true);
      assert x in g.Keys - Checked(g);
      StartSearching(g, x, symbol);
      ChildrenHit(g1, x, symbol, 0);
      FlagsTransfer(g, x, symbol, Children(g1, x, symbol, 0));
    }
  }

  lemma {:induction false} StartSearching(g: Snapshot, x: IncList, symbol: CString)
    requires WellFormed(g) && x in g && BlockedLack(g, symbol) && Visible(g, x, symbol) && !Defines(g[x], symbol)
    requires Acyclic(g) && FinishedClosed(g) && ClearOfBlocked(g, x)
    ensures Searching(SetChecked(g, x, true), x, symbol, 0)
  {
    StartFolding(g, x, symbol);
    FlagsKeepVisible(g, x, true);
    ChildSees(SetChecked(g, x, true), x, symbol);
  }

  // A file that defines the symbol itself answers at once and leaves everything as it was.
  lemma {:induction false} LocalHit(g: Snapshot, x: IncList, symbol: CString)
    requires WellFormed(g) && x in g && x !in Checked(g) && Defines(g[x], symbol)
    ensures FDefined(g, x, symbol) == Outcome(g, Some(x))
  {
    assert SetChecked(SetChecked(g, x, true), x, false) == g;
  }

  lemma {:induction false} FlagsAgree(g: Snapshot, x: IncList, symbol: CString)
    requires WellFormed(g) && x in g && Visible(g, x, symbol)
    ensures Agree(g, SetChecked(g, x, true), {}, symbol) && Beside(g, {}, x, symbol)
  {
    FlagsKeepVisible(g, x, true);
  }

  lemma {:induction false} FlagsTransfer(g: Snapshot, x: IncList, symbol: CString, r: Outcome)
    requires WellFormed(g) && x in g && Visible(g, x, symbol)
    requires WellFormed(r.g) && r.g.Keys == g.Keys && HitOutcome(SetChecked(g, x, true), x, symbol, r)
    ensures HitOutcome(g, x, symbol, Outcome(SetChecked(r.g, x, false), r.hit))
  {
    var g1 := SetChecked(g, x, true);
    FlagsAgree(g, x, symbol);
    FlagsKeepVisible(g, x, true);
    FlagsKeepVisible(r.g, x, false);
    LossesAgree(g, g1, {}, x, symbol);
    forall name: CString ensures Gathered(g, x, symbol, name) <==> Gathered(g1, x, symbol, name) {
      GatheredAgrees(g, g1, {}, x, symbol, name);
    }
  }

  // What x sees and does not define, some child sees first.
  lemma {:induction false} ChildSees(g: Snapshot, x: IncList, symbol: CString)
    requires WellFormed(g) && x in g && Visible(g, x, symbol) && !Defines(g[x], symbol)
    ensures GoesTo(g, x, symbol).Some?
  {
    var t :| t in g && Reach(Edges(g), {}, x, t) && Defines(g[t], symbol);
    ReachFirstStep(Edges(g), {}, x, t);
    var c :| c in Edges(g)[x] && Reach(Edges(g), {} + {x}, c, t);
    ReachMonotone(Edges(g), Edges(g), {} + {x}, {}, c, t);
    var j: nat :| j < |g[x].list| && !g[x].merged[j] && g[x].list[j] == c;
    assert Visible(g, g[x].list[j], symbol);
    var i := EarliestSeeing(g, x, symbol, j);
  }

  lemma {:induction false} EarliestSeeing(g: Snapshot, x: IncList, symbol: CString, j: nat) returns (i: nat)
    requires WellFormed(g) && x in g
    requires j < |g[x].list| && !g[x].merged[j] && Visible(g, g[x].list[j], symbol)
    ensures First(g, x, symbol, i)
  {
    i := j;
    if k: nat :| k < j && !g[x].merged[k] && Visible(g, g[x].list[k], symbol) {
      i := EarliestSeeing(g, x, symbol, k);
    }
  }

  /** On an acyclic graph in which read files include only read files, a lookup leaves every file's set of
      visible names as it was if and only if nothing is lost on the way to its answer: every read file
      that the search goes to sees only names that are looked over from there on, or that its includer
      has from elsewhere. A lookup that misses goes nowhere and so loses nothing. */
  lemma {:induction false} LookupKeepsViewsExactlyWhen(g: Snapshot, x: IncList, symbol: CString)
    requires WellFormed(g) && x in g && Checked(g) == {}
    requires Acyclic(g) && FinishedClosed(g)
    ensures KeepsVisible(g, FDefined(g, x, symbol).g) <==> LosesNothing(g, x, symbol)
  {
    if Visible(g, x, symbol) {
      HitExact(g, x, symbol);
    } else {
      AnswerIsVisibility(g, x, symbol);
      MissKeepsVisible(g, x, symbol);
      GoesNowhere(g, x, symbol);
      WayEnds(g, x, symbol);
    }
  }

  lemma {:induction false} GoesNowhere(g: Snapshot, x: IncList, symbol: CString)
    requires WellFormed(g) && x in g && !Visible(g, x, symbol)
    ensures GoesTo(g, x, symbol).None?
  {
    var i := GoesTo(g, x, symbol);
    if i.Some? { SeenByParent(g, x, i.value, symbol); }
  }

  // ---------------------------------------------------------------- what can be lost

  // The source x, still being read, includes c, and c includes e; both headers have been read to their
  // ends, and each defines one symbol.
  ghost predicate ChainIn(g: Snapshot, x: IncList, c: IncList, e: IncList, inC: Symtab, inE: Symtab) {
    && WellFormed(g) && x != c && x != e && c != e && x in g && c in g && e in g
    && g[x] == FileView([], [c], [false], false, false)
    && g[c] == FileView([inC], [e], [false], false, true)
    && g[e] == FileView([inE], [], [], false, true)
  }

  // Finding a symbol in c folds c alone into x and retires the edge.
  lemma {:induction false} ChainLookup(g: Snapshot, x: IncList, c: IncList, e: IncList, inC: Symtab, inE: Symtab)
    requires ChainIn(g, x, c, e, inC, inE) && Checked(g) == {}
    ensures FDefined(g, x, inC.s_name) == Outcome(g[x := FileView([inC], [c], [true], false, false)], Some(c))
  {
    var g1 := SetChecked(g, x, true);
    FDefinedUnfolds(g, x, inC.s_name);
    ChainSearch(g1, x, c, inC);
    ChainFlag(g, g1, x, FileView([inC], [c], [true], true, false));
  }

  lemma {:induction false} ChainFlag(g: Snapshot, g1: Snapshot, x: IncList, v: FileView)
    requires WellFormed(g) && x in g && g1 == SetChecked(g, x, true) && WellFormed(g1[x := v])
    ensures SetChecked(g1[x := v], x, false) == g[x := v.(checked := false)]
  {
  }

  lemma {:induction false} ChainSearch(g: Snapshot, x: IncList, c: IncList, inC: Symtab)
    requires WellFormed(g) && Checked(g) == {x} && x in g && c in g && x != c
    requires g[x] == FileView([], [c], [false], true, false) && g[c].defs == [inC] && g[c].finished
    ensures Search(g, x, inC.s_name) == Outcome(g[x := FileView([inC], [c], [true], true, false)], Some(c))
  {
    assert inC in g[c].defs && !Defines(g[x], inC.s_name);
    assert c !in Checked(g);
    LocalHit(g, c, inC.s_name);
    assert Children(g, x, inC.s_name, 0) == Outcome(FoldIfFinished(g, x, 0), Some(c));
    assert FoldIfFinished(g, x, 0)[x].merged == [false][0 := true] == [true];
  }

  lemma {:induction false} ChainShows(g: Snapshot, x: IncList, c: IncList, e: IncList, inC: Symtab, inE: Symtab)
    requires ChainIn(g, x, c, e, inC, inE)
    ensures Visible(g, x, inE.s_name) && Visible(g, x, inC.s_name)
  {
    var k := Edges(g);
    assert g[x].list[0] == c && g[c].list[0] == e;
    assert c in Live(g[x]) && e in Live(g[c]);
    ReachSelf(k, {}, e);
    ReachVia(k, {}, c, e, e);
    ReachVia(k, {}, x, c, e);
    ReachSelf(k, {}, c);
    ReachVia(k, {}, x, c, c);
    assert inE in g[e].defs && Defines(g[e], inE.s_name) && inC in g[c].defs && Defines(g[c], inC.s_name);
  }

  lemma {:induction false} ChainHides(g: Snapshot, x: IncList, c: IncList, e: IncList, inC: Symtab, inE: Symtab)
    requires ChainIn(g, x, c, e, inC, inE) && Checked(g) == {} && inC.s_name != inE.s_name
    ensures !Visible(FDefined(g, x, inC.s_name).g, x, inE.s_name)
  {
    ChainLookup(g, x, c, e, inC, inE);
    var h := FDefined(g, x, inC.s_name).g;
    assert Live(h[x]) == {};
    OnlySelf(Edges(h), {}, x);
  }

  ghost function IncludeChain(x: IncList, c: IncList, e: IncList, inC: Symtab, inE: Symtab): (g: Snapshot)
    requires x != c && x != e && c != e
    ensures ChainIn(g, x, c, e, inC, inE) && g.Keys == {x, c, e} && Checked(g) == {}
  {
    map[x := FileView([], [c], [false], false, false),
        c := FileView([inC], [e], [false], false, true),
        e := FileView([inE], [], [], false, true)]
  }

  lemma {:induction false} ChainIsTame(x: IncList, c: IncList, e: IncList, inC: Symtab, inE: Symtab)
    requires x != c && x != e && c != e
    ensures var g := IncludeChain(x, c, e, inC, inE); Acyclic(g) && FinishedClosed(g)
  {
    var g := IncludeChain(x, c, e, inC, inE);
    var k := Edges(g);
    assert Live(g[x]) == {c} && Live(g[c]) == {e} && Live(g[e]) == {} by {
      assert g[x].list[0] == c && g[c].list[0] == e;
    }
    OnlySelf(k, {}, e);
    OnlySelf(k, {c}, e);
    forall t | Reach(k, {}, c, t) ensures t == c || t == e { ReachFirstStep(k, {}, c, t); }
  }

  /** A lookup from the source that hits can hide names: once a symbol has been found in the header c, the
      source no longer sees what the header e, which c includes, defines. */
  lemma {:induction false} HitHidesName(x: IncList, c: IncList, e: IncList, inC: Symtab, inE: Symtab)
    requires x != c && x != e && c != e && inC.s_name != inE.s_name
    ensures var g := IncludeChain(x, c, e, inC, inE);
      && Acyclic(g) && FinishedClosed(g) && !g[x].finished && Visible(g, x, inE.s_name)
      && FDefined(g, x, inC.s_name).hit == Some(c)
      && !Visible(FDefined(g, x, inC.s_name).g, x, inE.s_name)
      && !LosesNothing(g, x, inC.s_name)
  {
    var g := IncludeChain(x, c, e, inC, inE);
    ChainIsTame(x, c, e, inC, inE);
    ChainShows(g, x, c, e, inC, inE);
    ChainLookup(g, x, c, e, inC, inE);
    ChainHides(g, x, c, e, inC, inE);
    LookupKeepsViewsExactlyWhen(g, x, inC.s_name);
  }
}
