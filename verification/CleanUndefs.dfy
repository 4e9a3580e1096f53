/** When undefine of config/makedepend/parse.c takes a name, and only the name, out of every file's sight.
    It works by lookups that fold tables, so it can hide other names, and it can leave copies of the
    name behind in headers. */
module CleanUndefs {
  import opened Names
  import opened SymbolTable
  import opened Graph
  import opened Lookup
  import opened Visibility
  import opened MissedLookups
  import opened Undefinition
  import H = HitLookups

  // ---------------------------------------------------------------- exactly when, on any graph

  ghost predicate TakesJust(g: Snapshot, h: Snapshot, name: CString) {
    forall f, z: CString :: f in g ==> (Visible(h, f, z) <==> Visible(g, f, z) && z != name)
  }

  ghost predicate HidesNoOther(g: Snapshot, h: Snapshot, name: CString) {
    forall f, z: CString :: f in g && z != name && Visible(g, f, z) ==> Visible(h, f, z)
  }

  ghost predicate Gone(g: Snapshot, name: CString) {
    forall f :: f in g ==> !Defines(g[f], name)
  }

  // The lookup of each pass hides no other name at its moment, and when the last one has missed no
  // table holds the name.
  ghost predicate Clean(g: Snapshot, main: IncList, x: IncList, name: CString)
    requires WellFormed(g) && main in g && x in g && Checked(g) == {}
    decreases LiveEdges(g), Entries(g)
  {
    PassDecreases(g, main, x, name);
    var r := IsDefined(g, main, x, name);
    && HidesNoOther(g, r.g, name)
    && if r.hit.None? then Gone(r.g, name) else Clean(Delete(r.g, r.hit.value, name), main, x, name)
  }

  // The names in sight once one entry of f is gone.
  lemma {:induction false} DeleteHides(g: Snapshot, f: IncList, name: CString, u: IncList, z: CString)
    requires WellFormed(g) && f in g && Defines(g[f], name) && u in g
    ensures Visible(Delete(g, f, name), u, z) ==> Visible(g, u, z)
    ensures z != name ==> (Visible(Delete(g, f, name), u, z) <==> Visible(g, u, z))
  {
    var h := Delete(g, f, name);
    assert Edges(h) == Edges(g);
    if Visible(h, u, z) {
      var v :| v in h && Reach(Edges(h), {}, u, v) && Defines(h[v], z);
      assert Defines(g[v], z);
    }
    if Visible(g, u, z) && z != name {
      var v :| v in g && Reach(Edges(g), {}, u, v) && Defines(g[v], z);
      assert Defines(h[v], z);
    }
  }

  lemma {:induction false} PassInvents(g: Snapshot, main: IncList, x: IncList, name: CString)
    requires WellFormed(g) && main in g && x in g && Checked(g) == {}
    ensures InventsNothing(g, IsDefined(g, main, x, name).g)
  {
    if !Defines(g[main], name) { LookupInvents(g, x, name); }
  }

  // One pass, and the names in sight after its deletion.
  lemma {:induction false} PassHides(g: Snapshot, main: IncList, x: IncList, name: CString)
    requires WellFormed(g) && main in g && x in g && Checked(g) == {}
    requires IsDefined(g, main, x, name).hit.Some?
    ensures var r := IsDefined(g, main, x, name);
      && Defines(r.g[r.hit.value], name)
      && var k := Delete(r.g, r.hit.value, name);
         && InventsNothing(g, k)
         && forall f, z: CString :: f in g && z != name ==> (Visible(k, f, z) <==> Visible(r.g, f, z))
  {
    PassAnswers(g, main, x, name);
    PassInvents(g, main, x, name);
    var r := IsDefined(g, main, x, name);
    var k := Delete(r.g, r.hit.value, name);
    forall f, z: CString | f in g
      ensures Visible(k, f, z) ==> Visible(r.g, f, z)
      ensures z != name ==> (Visible(k, f, z) <==> Visible(r.g, f, z))
    {
      DeleteHides(r.g, r.hit.value, name, f, z);
    }
  }

  lemma {:induction false} UndefinedInvents(g: Snapshot, main: IncList, x: IncList, name: CString)
    requires WellFormed(g) && main in g && x in g && Checked(g) == {}
    ensures InventsNothing(g, Undefined(g, main, x, name))
    decreases LiveEdges(g), Entries(g)
  {
    var r := IsDefined(g, main, x, name);
    PassDecreases(g, main, x, name);
    UndefinedPass(g, main, x, name);
    PassInvents(g, main, x, name);
    if r.hit.Some? {
      var k := Delete(r.g, r.hit.value, name);
      PassHides(g, main, x, name);
      UndefinedInvents(k, main, x, name);
      Squeeze(g, k, Undefined(k, main, x, name));
    }
  }

  /** On any graph, cyclic or not, an #undef takes the name, and only the name, out of every file's sight if
      and only if each of its lookups hides no other name, and none has left a copy behind. */
  lemma {:induction false} UndefIsCleanExactlyWhen(g: Snapshot, main: IncList, x: IncList, name: CString)
    requires WellFormed(g) && main in g && x in g && Checked(g) == {}
    ensures Clean(g, main, x, name) <==> TakesJust(g, Undefined(g, main, x, name), name)
    decreases LiveEdges(g), Entries(g)
  {
    var r := IsDefined(g, main, x, name);
    PassDecreases(g, main, x, name);
    UndefinedPass(g, main, x, name);
    PassInvents(g, main, x, name);
    if r.hit.None? {
      LastPassExactly(g, r.g, name);
    } else {
      var k := Delete(r.g, r.hit.value, name);
      PassHides(g, main, x, name);
      UndefIsCleanExactlyWhen(k, main, x, name);
      UndefinedInvents(k, main, x, name);
      PassExactly(g, r.g, k, Undefined(k, main, x, name), name);
    }
  }

  // The lookup of each pass hides no other name at its moment.
  ghost predicate Tidy(g: Snapshot, main: IncList, x: IncList, name: CString)
    requires WellFormed(g) && main in g && x in g && Checked(g) == {}
    decreases LiveEdges(g), Entries(g)
  {
    PassDecreases(g, main, x, name);
    var r := IsDefined(g, main, x, name);
    HidesNoOther(g, r.g, name) && (r.hit.Some? ==> Tidy(Delete(r.g, r.hit.value, name), main, x, name))
  }

  /** On any graph an #undef leaves all other names in every file's sight if and only if each of its lookups hides
      none; so it is clean if and only if moreover no copy of the name is left. */
  lemma {:induction false} UndefIsTidyExactlyWhen(g: Snapshot, main: IncList, x: IncList, name: CString)
    requires WellFormed(g) && main in g && x in g && Checked(g) == {}
    ensures var h := Undefined(g, main, x, name);
      && (Tidy(g, main, x, name) <==> HidesNoOther(g, h, name))
      && (Clean(g, main, x, name) <==> Tidy(g, main, x, name) && Gone(h, name))
    decreases LiveEdges(g), Entries(g)
  {
    var r := IsDefined(g, main, x, name);
    PassDecreases(g, main, x, name);
    UndefinedPass(g, main, x, name);
    PassInvents(g, main, x, name);
    if r.hit.Some? {
      var k := Delete(r.g, r.hit.value, name);
      PassHides(g, main, x, name);
      UndefIsTidyExactlyWhen(k, main, x, name);
      UndefinedInvents(k, main, x, name);
      PassTidy(g, r.g, k, Undefined(k, main, x, name), name);
    }
  }

  lemma {:induction false} PassTidy(g: Snapshot, m: Snapshot, k: Snapshot, h: Snapshot, name: CString)
    requires m.Keys == g.Keys && k.Keys == g.Keys
    requires InventsNothing(g, m) && InventsNothing(g, k) && InventsNothing(k, h)
    requires forall f, z: CString :: f in g && z != name ==> (Visible(k, f, z) <==> Visible(m, f, z))
    ensures HidesNoOther(g, m, name) && HidesNoOther(k, h, name) <==> HidesNoOther(g, h, name)
  {
    if HidesNoOther(g, h, name) {
      forall f, z: CString | f in g && z != name && Visible(g, f, z) ensures Visible(m, f, z) {
        assert Visible(h, f, z) && Visible(k, f, z);
      }
    }
  }

  lemma {:induction false} LastPassExactly(g: Snapshot, h: Snapshot, name: CString)
    requires h.Keys == g.Keys && InventsNothing(g, h)
    ensures HidesNoOther(g, h, name) && Gone(h, name) <==> TakesJust(g, h, name)
  {
    forall f | f in h && Defines(h[f], name) ensures Visible(h, f, name) { ReachSelf(Edges(h), {}, f); }
  }

  lemma {:induction false} PassExactly(g: Snapshot, m: Snapshot, k: Snapshot, h: Snapshot, name: CString)
    requires m.Keys == g.Keys && k.Keys == g.Keys
    requires InventsNothing(g, m) && InventsNothing(g, k) && InventsNothing(k, h)
    requires forall f, z: CString :: f in g && z != name ==> (Visible(k, f, z) <==> Visible(m, f, z))
    ensures HidesNoOther(g, m, name) && TakesJust(k, h, name) <==> TakesJust(g, h, name)
  {
    if TakesJust(g, h, name) {
      forall f, z: CString | f in g && z != name && Visible(g, f, z) ensures Visible(m, f, z) {
        assert Visible(h, f, z) && Visible(k, f, z);
      }
      forall f, z: CString | f in k ensures Visible(h, f, z) <==> Visible(k, f, z) && z != name {
        assert Visible(k, f, z) ==> Visible(g, f, z);
      }
    }
    if HidesNoOther(g, m, name) && TakesJust(k, h, name) {
      forall f, z: CString | f in g ensures Visible(h, f, z) <==> Visible(g, f, z) && z != name {
        assert Visible(h, f, z) <==> Visible(k, f, z) && z != name;
      }
    }
  }

  // ---------------------------------------------------------------- on an acyclic graph

  ghost predicate KeepsName(g: Snapshot, h: Snapshot, name: CString) {
    forall f :: f in g && Visible(g, f, name) ==> Visible(h, f, name)
  }

  // The symbol looked for stays in sight; if x has been read to its end, it has come into its table.
  ghost predicate Stays(g: Snapshot, x: IncList, symbol: CString, r: Outcome)
    requires x in g
  {
    x in r.g && KeepsName(g, r.g, symbol) && (r.hit.Some? && g[x].finished ==> Defines(r.g[x], symbol))
  }

  lemma {:induction false} SymbolStays(g: Snapshot, x: IncList, symbol: CString)
    requires WellFormed(g) && x in g && BlockedLack(g, symbol)
    requires Acyclic(g) && FinishedClosed(g) && ClearOfBlocked(g, x)
    ensures Stays(g, x, symbol, FDefined(g, x, symbol))
    decreases g.Keys - Checked(g), 0, 0
  {
    ReachSelf(Edges(g), {}, x);
    assert !g[x].checked;
    if Defines(g[x], symbol) {
      H.LocalHit(g, x, symbol);
    } else {
      var g1 := SetChecked(g, x, true);
      assert x in g.Keys - Checked(g);
      StartFolding(g, x, symbol);
      ChildrenStay(g1, x, symbol, 0);
      var r := Children(g1, x, symbol, 0);
      FlagsKeepVisible(g, x, true);
      FlagsKeepVisible(r.g, x, false);
    }
  }

  lemma {:induction false} ChildrenStay(g: Snapshot, x: IncList, symbol: CString, i: nat)
    requires Folding(g, x, symbol, i)
    ensures Stays(g, x, symbol, Children(g, x, symbol, i))
    decreases g.Keys - Checked(g), 1, |g[x].list| - i, 2
  {
    if i == |g[x].list| {
      LoopEndStays(g, x, symbol);
    } else {
      NextStays(g, x, symbol, i);
    }
  }

  lemma {:induction false} LoopEndStays(g: Snapshot, x: IncList, symbol: CString)
    requires WellFormed(g) && x in g && Folding(g, x, symbol, |g[x].list|)
    ensures Stays(g, x, symbol, Children(g, x, symbol, |g[x].list|))
  {
  }

  lemma {:induction false} NextStays(g: Snapshot, x: IncList, symbol: CString, i: nat)
    requires Folding(g, x, symbol, i) && i < |g[x].list|
    ensures Stays(g, x, symbol, Children(g, x, symbol, i))
    decreases g.Keys - Checked(g), 1, |g[x].list| - i, 1
  {
    if g[x].merged[i] {
      FoldingGoesOn(g, x, symbol, i);
      ChildrenStay(g, x, symbol, i + 1);
      assert Children(g, x, symbol, i) == Children(g, x, symbol, i + 1);
    } else {
      ChildStays(g, x, symbol, i);
    }
  }

  lemma {:induction false} ChildStays(g: Snapshot, x: IncList, symbol: CString, i: nat)
    requires Folding(g, x, symbol, i) && i < |g[x].list| && !g[x].merged[i]
    ensures Stays(g, x, symbol, Children(g, x, symbol, i))
    decreases g.Keys - Checked(g), 1, |g[x].list| - i, 0
  {
    var c := g[x].list[i];
    assert c in Live(g[x]);
    var r, h := ChildrenTurn(g, x, symbol, i);
    if r.hit.None? {
      TurnKeepsVisible(g, x, symbol, i, r, h);
      ChildrenStay(h, x, symbol, i + 1);
      assert Evolves(g[x], h[x]);
    } else {
      SymbolStays(g, c, symbol);
      HitFoldStays(g, x, symbol, i, r, h);
    }
  }

  lemma {:induction false} HitFoldStays(g: Snapshot, x: IncList, symbol: CString, i: nat, r: Outcome, h: Snapshot)
    requires WellFormed(g) && x in g && FinishedClosed(g) && i < |g[x].list| && g[x].list[i] in Live(g[x])
    requires WellFormed(r.g) && SameShape(g, r.g) && r.g[x] == g[x] && r.hit.Some?
    requires Stays(g, g[x].list[i], symbol, r) && h == FoldIfFinished(r.g, x, i)
    ensures Stays(g, x, symbol, Outcome(h, r.hit))
  {
    var c := g[x].list[i];
    assert Evolves(g[c], r.g[c]);
    if g[c].finished {
      FoldedTable(r.g, x, i);
      ReachSelf(Edges(h), {}, x);
      assert Defines(h[x], symbol);
      forall f | f in g && Visible(g, f, symbol) ensures Visible(h, f, symbol) {
        OthersSeeThroughX(r.g, x, i, f, symbol);
      }
    }
  }

  // So a lookup that hides no other name hides none at all.
  lemma {:induction false} HidesNoneExactly(g: Snapshot, x: IncList, symbol: CString)
    requires WellFormed(g) && x in g && Checked(g) == {} && Acyclic(g) && FinishedClosed(g)
    ensures HidesNoOther(g, FDefined(g, x, symbol).g, symbol) <==> H.LosesNothing(g, x, symbol)
  {
    SymbolStays(g, x, symbol);
    H.LookupKeepsViewsExactlyWhen(g, x, symbol);
  }

  // Each pass finds the name on the command line or loses nothing on its way, and no copy is left.
  ghost predicate LosesNothingInTurn(g: Snapshot, main: IncList, x: IncList, name: CString)
    requires WellFormed(g) && main in g && x in g && Checked(g) == {}
    decreases LiveEdges(g), Entries(g)
  {
    PassDecreases(g, main, x, name);
    var r := IsDefined(g, main, x, name);
    && (Defines(g[main], name) || H.LosesNothing(g, x, name))
    && if r.hit.None? then Gone(r.g, name) else LosesNothingInTurn(Delete(r.g, r.hit.value, name), main, x, name)
  }

  /** Where no file includes itself and read files include only read files, the condition on each lookup is
      one on the state it starts from. */
  lemma {:induction false} CleanWhenNothingIsLost(g: Snapshot, main: IncList, x: IncList, name: CString)
    requires WellFormed(g) && main in g && x in g && Checked(g) == {} && Acyclic(g) && FinishedClosed(g)
    ensures Clean(g, main, x, name) <==> LosesNothingInTurn(g, main, x, name)
    decreases LiveEdges(g), Entries(g)
  {
    var r := IsDefined(g, main, x, name);
    PassDecreases(g, main, x, name);
    if !Defines(g[main], name) { HidesNoneExactly(g, x, name); }
    if r.hit.Some? {
      var k := Delete(r.g, r.hit.value, name);
      SameShapeTransitive(g, r.g, k);
      ShapeKeepsHypotheses(g, k);
      CleanWhenNothingIsLost(k, main, x, name);
    }
  }

  // ---------------------------------------------------------------- copies left behind

  // A file that the source no longer reaches keeps the name.
  lemma {:induction false} OutOfReachKeeps(g: Snapshot, main: IncList, x: IncList, name: CString, f: IncList)
    requires WellFormed(g) && main in g && x in g && Checked(g) == {}
    requires f in g && f != main && !Reach(Edges(g), {}, x, f)
    ensures Undefined(g, main, x, name)[f].defs == g[f].defs
    decreases LiveEdges(g), Entries(g)
  {
    var r := IsDefined(g, main, x, name);
    PassDecreases(g, main, x, name);
    UndefinedPass(g, main, x, name);
    if !Defines(g[main], name) { FDefinedExact(g, x, name); }
    if r.hit.Some? {
      var k := Delete(r.g, r.hit.value, name);
      SameShapeTransitive(g, r.g, k);
      ShapeSubgraph(g, k);
      if Reach(Edges(k), {}, x, f) { ReachMonotone(Edges(k), Edges(g), {}, {}, x, f); }
      OutOfReachKeeps(k, main, x, name, f);
    }
  }

  // So an #undef is never clean while a file out of the source's reach defines the name.
  lemma {:induction false} CleanNeedsReach(g: Snapshot, main: IncList, x: IncList, name: CString, f: IncList)
    requires WellFormed(g) && main in g && x in g && Checked(g) == {} && Clean(g, main, x, name)
    requires f in g && f != main && Defines(g[f], name)
    ensures Reach(Edges(g), {}, x, f)
  {
    if !Reach(Edges(g), {}, x, f) {
      var h := Undefined(g, main, x, name);
      OutOfReachKeeps(g, main, x, name, f);
      UndefIsCleanExactlyWhen(g, main, x, name);
      ReachSelf(Edges(h), {}, f);
      assert Visible(h, f, name);
    }
  }

  // A search that goes through the only child of x, which has been read to its end.
  lemma {:induction false} ThroughOnlyChild(g: Snapshot, x: IncList, c: IncList, symbol: CString, r: Outcome)
    requires WellFormed(g) && x in g && c in g && x != c && !g[x].checked
    requires g[x].list == [c] && g[x].merged == [false] && g[c].finished && !Defines(g[x], symbol)
    requires r == FDefined(SetChecked(g, x, true), c, symbol) && r.hit.Some? && r.g[x] == g[x].(checked := true)
    ensures FDefined(g, x, symbol) ==
      Outcome(r.g[x := FileView(Merged(g[x].defs, r.g[c].defs), [c], [true], false, g[x].finished)], r.hit)
  {
    var g1 := SetChecked(g, x, true);
    FDefinedUnfolds(g, x, symbol);
    OnlyChildHits(g1, x, c, symbol, r);
    assert Evolves(g1[c], r.g[c]);
    OnlyChildFolds(g[x], r.g, x, c);
  }

  lemma {:induction false} OnlyChildHits(g: Snapshot, x: IncList, c: IncList, symbol: CString, r: Outcome)
    requires WellFormed(g) && x in g && c in g && g[x].checked
    requires g[x].list == [c] && g[x].merged == [false] && !Defines(g[x], symbol)
    requires r == FDefined(g, c, symbol) && r.hit.Some? && r.g[x] == g[x]
    ensures Search(g, x, symbol) == Outcome(FoldIfFinished(r.g, x, 0), r.hit)
  {
    assert Children(g, x, symbol, 0) == Outcome(FoldIfFinished(r.g, x, 0), r.hit);
  }

  lemma {:induction false} OnlyChildFolds(v: FileView, g: Snapshot, x: IncList, c: IncList)
    requires WellFormed(g) && x in g && c in g && g[x] == v.(checked := true) && g[c].finished
    requires v.list == [c] && v.merged == [false]
    ensures SetChecked(FoldIfFinished(g, x, 0), x, false) ==
      g[x := FileView(Merged(v.defs, g[c].defs), [c], [true], false, v.finished)]
  {
    assert [false][0 := true] == [true];
  }

  // A lookup along the chain: the entry of e is copied into c, and with c's table into x.
  lemma {:induction false} ChainCopies(g: Snapshot, x: IncList, c: IncList, e: IncList, inC: Symtab, inE: Symtab)
    requires H.ChainIn(g, x, c, e, inC, inE) && Checked(g) == {} && inC.s_name != inE.s_name
    ensures var r := FDefined(g, x, inE.s_name);
      r.hit == Some(e) && Defines(r.g[c], inE.s_name) && Live(r.g[x]) == {}
  {
    var g1 := SetChecked(g, x, true);
    assert inE in g[e].defs && inC in g[c].defs;
    H.LocalHit(SetChecked(g1, c, true), e, inE.s_name);
    ThroughOnlyChild(g1, c, e, inE.s_name, Outcome(SetChecked(g1, c, true), Some(e)));
    MergeIsRightBiasedUnion([inC], [inE]);
    ThroughOnlyChild(g, x, c, inE.s_name, FDefined(g1, c, inE.s_name));
  }

  /** The source includes c, and c includes e: an #undef of a name that e defines leaves it behind in c, so every
      file that comes to include c sees it. */
  lemma {:induction false} UndefLeavesCopy(g: Snapshot, main: IncList, x: IncList, c: IncList, e: IncList, inC: Symtab,
                                           inE: Symtab)
    requires H.ChainIn(g, x, c, e, inC, inE) && Checked(g) == {} && inC.s_name != inE.s_name
    requires main in g && main != c && !Defines(g[main], inE.s_name)
    ensures Visible(Undefined(g, main, x, inE.s_name), c, inE.s_name)
    ensures !Clean(g, main, x, inE.s_name)
  {
    var name := inE.s_name;
    var r := FDefined(g, x, name);
    ChainCopies(g, x, c, e, inC, inE);
    UndefinedPass(g, main, x, name);
    var k := Delete(r.g, e, name);
    assert Live(k[x]) == {};
    OnlySelf(Edges(k), {}, x);
    OutOfReachKeeps(k, main, x, name, c);
    var h := Undefined(g, main, x, name);
    ReachSelf(Edges(h), {}, c);
    UndefIsCleanExactlyWhen(g, main, x, name);
  }

  // ---------------------------------------------------------------- names of headers without includes

  // An edge of x that a lookup retires led to a file that lacked the symbol, or to the one it was found in.
  ghost predicate RetiresLacking(g: Snapshot, x: IncList, symbol: CString, r: Outcome)
    requires WellFormed(g) && x in g
  {
    && x in r.g && |r.g[x].merged| == |g[x].merged|
    && forall j: nat :: j < |g[x].list| && r.g[x].merged[j] && !g[x].merged[j] ==>
         !Defines(g[g[x].list[j]], symbol) || r.hit == Some(g[x].list[j])
  }

  lemma {:induction false} RetiredLacked(g: Snapshot, x: IncList, symbol: CString)
    requires WellFormed(g) && x in g && BlockedLack(g, symbol)
    ensures RetiresLacking(g, x, symbol, FDefined(g, x, symbol))
  {
    if !g[x].checked {
      var g1 := SetChecked(g, x, true);
      FDefinedUnfolds(g, x, symbol);
      if !Defines(g[x], symbol) { ChildrenRetireLacking(g1, x, symbol, 0); }
      FlagsRetireNothing(g, x, symbol, Search(g1, x, symbol));
    }
  }

  lemma {:induction false} FlagsRetireNothing(g: Snapshot, x: IncList, symbol: CString, r: Outcome)
    requires WellFormed(g) && x in g && WellFormed(r.g) && RetiresLacking(SetChecked(g, x, true), x, symbol, r)
    ensures RetiresLacking(g, x, symbol, Outcome(SetChecked(r.g, x, false), r.hit))
  {
    var g1 := SetChecked(g, x, true);
    assert g1[x].list == g[x].list && forall f :: f in g ==> g1[f].defs == g[f].defs;
  }

  lemma {:induction false} ChildrenRetireLacking(g: Snapshot, x: IncList, symbol: CString, i: nat)
    requires InLoop(g, x, None, symbol, i)
    ensures RetiresLacking(g, x, symbol, Children(g, x, symbol, i))
    decreases |g[x].list| - i, 1
  {
    if i == |g[x].list| {
      LoopEndRetiresNothing(g, x, symbol);
    } else if g[x].merged[i] {
      ChildrenRetireLacking(g, x, symbol, i + 1);
      assert Children(g, x, symbol, i) == Children(g, x, symbol, i + 1);
    } else {
      ChildRetiresLacking(g, x, symbol, i);
    }
  }

  lemma {:induction false} LoopEndRetiresNothing(g: Snapshot, x: IncList, symbol: CString)
    requires WellFormed(g) && x in g && g[x].checked
    ensures RetiresLacking(g, x, symbol, Children(g, x, symbol, |g[x].list|))
  {
  }

  lemma {:induction false} ChildRetiresLacking(g: Snapshot, x: IncList, symbol: CString, i: nat)
    requires AtChild(g, x, symbol, i)
    ensures RetiresLacking(g, x, symbol, Children(g, x, symbol, i))
    decreases |g[x].list| - i, 0
  {
    var r, h := ChildrenTurn(g, x, symbol, i);
    ChildFoundAtOnce(g, x, symbol, i, r);
    if r.hit.None? {
      ChildrenRetireLacking(h, x, symbol, i + 1);
      TurnRetiresLacking(g, x, symbol, i, r, h, Children(h, x, symbol, i + 1));
    }
  }

  lemma {:induction false} ChildFoundAtOnce(g: Snapshot, x: IncList, symbol: CString, i: nat, r: Outcome)
    requires AtChild(g, x, symbol, i) && r == FDefined(g, g[x].list[i], symbol)
    ensures !Defines(g[g[x].list[i]], symbol) || r.hit == Some(g[x].list[i])
  {
    var c := g[x].list[i];
    if Defines(g[c], symbol) {
      assert c !in Checked(g);
      H.LocalHit(g, c, symbol);
    }
  }

  lemma {:induction false} TurnRetiresLacking(g: Snapshot, x: IncList, symbol: CString, i: nat, r: Outcome, h: Snapshot,
                                              last: Outcome)
    requires AtChild(g, x, symbol, i) && r == FDefined(g, g[x].list[i], symbol) && r.g[x] == g[x]
    requires h == FoldIfFinished(r.g, x, i) && !Defines(g[g[x].list[i]], symbol)
    requires RetiresLacking(h, x, symbol, last)
    ensures RetiresLacking(g, x, symbol, last)
  {
    assert h[x].list == g[x].list && forall j: nat :: j < |g[x].list| && j != i ==> h[x].merged[j] == g[x].merged[j];
    forall f | f in g ensures NamesOf(g[f].defs) <= NamesOf(h[f].defs) {
      NoFoldNoChange(g, g[x].list[i], symbol, f);
      QuietTurn(g, x, i, r.g, h, f);
    }
  }

  // Besides the command line and the source, only headers that the source includes itself see the name,
  // read to their ends and with nothing left to merge.
  ghost predicate OnlyLeavesSee(g: Snapshot, main: IncList, x: IncList, name: CString)
    requires x in g
  {
    forall f :: f in g && Visible(g, f, name) ==>
      f == main || f == x || (g[f].finished && Live(g[f]) == {} && f in Live(g[x]))
  }

  // The names that a leaf sees are its own.
  lemma {:induction false} LeafSeesItself(g: Snapshot, f: IncList, z: CString)
    requires WellFormed(g) && f in g && Live(g[f]) == {}
    ensures Visible(g, f, z) <==> Defines(g[f], z)
  {
    OnlySelf(Edges(g), {}, f);
    ReachSelf(Edges(g), {}, f);
  }

  // The search goes to a leaf at most, and hides nothing on that way.
  lemma {:induction false} LeafLosesNothing(g: Snapshot, main: IncList, x: IncList, name: CString)
    requires WellFormed(g) && main in g && x in g && main != x && Live(g[main]) == {} && !Defines(g[main], name)
    requires OnlyLeavesSee(g, main, x, name) && Acyclic(g)
    ensures H.LosesNothing(g, x, name)
  {
    var i := H.GoesTo(g, x, name);
    if i.None? {
      H.WayEnds(g, x, name);
    } else {
      var c := g[x].list[i.value];
      assert c in Live(g[x]);
      ReachSelf(Edges(g), {}, c);
      assert c != x;
      LeafSeesItself(g, main, name);
      LeafSeesItself(g, c, name);
      assert H.GoesTo(g, c, name).None?;
      H.WayEnds(g, c, name);
      forall z: CString | Visible(g, c, z) ensures H.Gathered(g, c, name, z) { LeafSeesItself(g, c, z); }
      H.WayLoses(g, x, name);
    }
  }

  /** #undef of a name that is seen only from the command line, the source, and headers without includes that
      the source includes itself is clean. */
  lemma {:induction false} LeafNamesAreClean(g: Snapshot, main: IncList, x: IncList, name: CString)
    requires WellFormed(g) && main in g && x in g && main != x && Checked(g) == {} && Live(g[main]) == {}
    requires Acyclic(g) && FinishedClosed(g) && OnlyLeavesSee(g, main, x, name)
    ensures Clean(g, main, x, name)
    decreases LiveEdges(g), Entries(g)
  {
    var r := IsDefined(g, main, x, name);
    PassDecreases(g, main, x, name);
    if !Defines(g[main], name) {
      LeafLosesNothing(g, main, x, name);
      HidesNoneExactly(g, x, name);
    }
    if r.hit.Some? {
      var k := Delete(r.g, r.hit.value, name);
      SameShapeTransitive(g, r.g, k);
      ShapeKeepsHypotheses(g, k);
      LeavesStay(g, main, x, name);
      LeafNamesAreClean(k, main, x, name);
    } else {
      LeavesGone(g, main, x, name);
    }
  }

  lemma {:induction false} LeavesStay(g: Snapshot, main: IncList, x: IncList, name: CString)
    requires WellFormed(g) && main in g && x in g && main != x && Checked(g) == {} && Live(g[main]) == {}
    requires OnlyLeavesSee(g, main, x, name) && IsDefined(g, main, x, name).hit.Some?
    ensures var r := IsDefined(g, main, x, name);
      && Defines(r.g[r.hit.value], name)
      && var k := Delete(r.g, r.hit.value, name); Live(k[main]) == {} && OnlyLeavesSee(k, main, x, name)
  {
    var r := IsDefined(g, main, x, name);
    PassHides(g, main, x, name);
    var k := Delete(r.g, r.hit.value, name);
    SameShapeTransitive(g, r.g, k);
    ShapeSubgraph(g, k);
    assert Edges(k)[main] <= Edges(g)[main];
    forall f | f in k && Visible(k, f, name) && f != main && f != x
      ensures k[f].finished && Live(k[f]) == {} && f in Live(k[x])
    {
      assert Visible(g, f, name) && Evolves(g[f], k[f]) && Edges(k)[f] <= Edges(g)[f];
      LeafSeesItself(k, f, name);
      LeafSeesItself(g, f, name);
      LeafStays(g, main, x, name, f);
    }
  }

  // A leaf that still defines the name after the deletion has not been folded.
  lemma {:induction false} LeafStays(g: Snapshot, main: IncList, x: IncList, name: CString, f: IncList)
    requires WellFormed(g) && main in g && x in g && Checked(g) == {}
    requires f in Live(g[x]) && f in g && Defines(g[f], name)
    requires var r := IsDefined(g, main, x, name);
      r.hit.Some? && Defines(r.g[r.hit.value], name) && Defines(Delete(r.g, r.hit.value, name)[f], name)
    ensures var r := IsDefined(g, main, x, name); f in Live(Delete(r.g, r.hit.value, name)[x])
  {
    if !Defines(g[main], name) {
      var r := FDefined(g, x, name);
      RetiredLacked(g, x, name);
      assert Evolves(g[x], r.g[x]);
      var j :| 0 <= j < |g[x].list| && !g[x].merged[j] && g[x].list[j] == f;
      assert r.hit != Some(f);
      assert !r.g[x].merged[j];
    }
  }

  // When the lookup has missed, no table holds the name.
  lemma {:induction false} LeavesGone(g: Snapshot, main: IncList, x: IncList, name: CString)
    requires WellFormed(g) && main in g && x in g && main != x && Checked(g) == {} && Live(g[main]) == {}
    requires OnlyLeavesSee(g, main, x, name) && IsDefined(g, main, x, name).hit.None?
    ensures Gone(IsDefined(g, main, x, name).g, name)
  {
    var h := IsDefined(g, main, x, name).g;
    PassAnswers(g, main, x, name);
    PassInvents(g, main, x, name);
    LookupFindsWhatIsVisible(g, x, name);
    forall f | f in h ensures !Defines(h[f], name) {
      if Defines(h[f], name) {
        ReachSelf(Edges(h), {}, f);
        assert Visible(h, f, name) && Visible(g, f, name);
        if f != main && f != x {
          var t :| t in g && Reach(Edges(g), {}, f, t) && Defines(g[t], name);
          ReachVia(Edges(g), {}, x, f, t);
        }
      }
    }
  }
}
