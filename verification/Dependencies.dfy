/** How the dependencies of a source are printed: the edges that included_by records
    (config/makedepend/include.c:179-228), the marked walk of recursive_pr_include over them
    (config/makedepend/pr.c:116-130), and inc_clean between two sources. */
module Dependencies {
  import opened Names
  import opened Graph
  import opened SymbolTable

  // ---------------------------------------------------------------- the walk as a function

  // For each file the files it includes, in order.
  type Includes<!N> = map<N, seq<N>>

  ghost predicate Closed<N>(g: Includes<N>) {
    forall x, y :: x in g && y in g[x] ==> y in g
  }

  ghost function Edges<N>(g: Includes<N>): map<N, set<N>> {
    map x | x in g :: set y | y in g[x]
  }

  datatype Walked<N> = Walked(marked: set<N>, order: seq<N>)

  // recursive_pr_include on head: what is marked afterwards, and the files in the order in which
  // they were marked.
  ghost function Visit<N>(g: Includes<N>, marked: set<N>, head: N): (r: Walked<N>)
    requires Closed(g) && head in g && marked <= g.Keys
    ensures marked <= r.marked <= g.Keys
    decreases g.Keys - marked, 1, 0
  {
    if head in marked then Walked(marked, [])
    else
      assert head in g.Keys - marked;
      var rest := VisitAll(g, marked + {head}, head, 0);
      Walked(rest.marked, [head] + rest.order)
  }

  // The loop over i_list, from the i-th file on.
  ghost function VisitAll<N>(g: Includes<N>, marked: set<N>, head: N, i: nat): (r: Walked<N>)
    requires Closed(g) && head in g && marked <= g.Keys && i <= |g[head]|
    ensures marked <= r.marked <= g.Keys
    decreases g.Keys - marked, 2, |g[head]| - i
  {
    if i == |g[head]| then Walked(marked, [])
    else
      var first := Visit(g, marked, g[head][i]);
      var rest := VisitAll(g, first.marked, head, i + 1);
      Walked(rest.marked, first.order + rest.order)
  }

  function Without<N(==)>(s: seq<N>, x: N): (r: seq<N>)
    ensures forall y :: y in s && y != x ==> y in r
    ensures forall y :: y in r ==> y in s && y != x
  {
    if s == [] then [] else (if s[0] == x then [] else [s[0]]) + Without(s[1..], x)
  }

  // ---------------------------------------------------------------- what it visits

  lemma {:induction false} DistinctJoin<N>(a: seq<N>, b: seq<N>)
    requires Distinct(a) && Distinct(b) && forall x :: x in a ==> x !in b
    ensures Distinct(a + b)
  {
    forall i, j | 0 <= i < j < |a + b| ensures (a + b)[i] != (a + b)[j] {
      if i < |a| <= j { assert a[i] in a && b[j - |a|] in b; }
    }
  }

  // Every file is marked when it is met for the first time, and only then.
  ghost predicate MarksEachOnce<N>(marked: set<N>, r: Walked<N>) {
    && Distinct(r.order)
    && (forall y :: y in r.order ==> y !in marked)
    && r.marked == marked + set y | y in r.order
  }

  lemma {:induction false} VisitMarksEachOnce<N>(g: Includes<N>, marked: set<N>, head: N)
    requires Closed(g) && head in g && marked <= g.Keys
    ensures MarksEachOnce(marked, Visit(g, marked, head))
    decreases g.Keys - marked, 1, 0
  {
    if head !in marked {
      assert head in g.Keys - marked;
      VisitAllMarksEachOnce(g, marked + {head}, head, 0);
      DistinctJoin([head], VisitAll(g, marked + {head}, head, 0).order);
    }
  }

  lemma {:induction false} VisitAllMarksEachOnce<N>(g: Includes<N>, marked: set<N>, head: N, i: nat)
    requires Closed(g) && head in g && marked <= g.Keys && i <= |g[head]|
    ensures MarksEachOnce(marked, VisitAll(g, marked, head, i))
    decreases g.Keys - marked, 2, |g[head]| - i
  {
    if i < |g[head]| {
      var first := Visit(g, marked, g[head][i]);
      VisitMarksEachOnce(g, marked, g[head][i]);
      VisitAllMarksEachOnce(g, first.marked, head, i + 1);
      DistinctJoin(first.order, VisitAll(g, first.marked, head, i + 1).order);
    }
  }

  // All that is visited can be reached without touching a marked file.
  lemma {:induction false} VisitedIsReached<N>(g: Includes<N>, marked: set<N>, head: N, y: N)
    requires Closed(g) && head in g && marked <= g.Keys && y in Visit(g, marked, head).order
    ensures Reach(Edges(g), marked, head, y)
    decreases g.Keys - marked, 1, 0
  {
    assert head in g.Keys - marked;
    ReachSelf(Edges(g), marked, head);
    if y != head {
      var c := VisitedIsReachedFromChild(g, marked + {head}, head, 0, y);
      ReachMonotone(Edges(g), Edges(g), marked + {head}, marked, c, y);
      ReachVia(Edges(g), marked, head, c, y);
    }
  }

  lemma {:induction false} VisitedIsReachedFromChild<N>(g: Includes<N>, marked: set<N>, head: N, i: nat, y: N)
    returns (c: N)
    requires Closed(g) && head in g && marked <= g.Keys && i <= |g[head]|
    requires y in VisitAll(g, marked, head, i).order
    ensures c in g[head] && Reach(Edges(g), marked, c, y)
    decreases g.Keys - marked, 2, |g[head]| - i
  {
    var first := Visit(g, marked, g[head][i]);
    if y in first.order {
      c := g[head][i];
      VisitedIsReached(g, marked, c, y);
    } else {
      c := VisitedIsReachedFromChild(g, first.marked, head, i + 1, y);
      ReachMonotone(Edges(g), Edges(g), first.marked, marked, c, y);
    }
  }

  // Behind the walk no new file has an unmarked one to include.
  lemma {:induction false} VisitCloses<N>(g: Includes<N>, marked: set<N>, head: N, u: N, v: N)
    requires Closed(g) && head in g && marked <= g.Keys
    requires u in Visit(g, marked, head).marked - marked && v in g[u]
    ensures v in Visit(g, marked, head).marked
    decreases g.Keys - marked, 1, 0
  {
    assert head in g.Keys - marked;
    VisitAllCloses(g, marked + {head}, head, 0, u, v);
  }

  lemma {:induction false} VisitAllCloses<N>(g: Includes<N>, marked: set<N>, head: N, i: nat, u: N, v: N)
    requires Closed(g) && head in g && marked <= g.Keys && i <= |g[head]| && head in marked
    requires u in g && v in g[u]
    requires u in VisitAll(g, marked, head, i).marked - marked || (u == head && v in g[head][i..])
    ensures v in VisitAll(g, marked, head, i).marked
    decreases g.Keys - marked, 2, |g[head]| - i
  {
    if i < |g[head]| {
      var c := g[head][i];
      var first := Visit(g, marked, c);
      if u in first.marked - marked {
        VisitCloses(g, marked, c, u, v);
      } else if u == head && v == c {
        VisitMarks(g, marked, c);
      } else {
        assert u == head ==> v in g[head][i + 1..];
        VisitAllCloses(g, first.marked, head, i + 1, u, v);
      }
    }
  }

  lemma {:induction false} VisitMarks<N>(g: Includes<N>, marked: set<N>, head: N)
    requires Closed(g) && head in g && marked <= g.Keys
    ensures head in Visit(g, marked, head).marked
  {
  }

  lemma {:induction false} PathStaysInside<N>(g: Includes<N>, marked: set<N>, head: N, x: N, y: N, n: nat)
    requires Closed(g) && head in g && marked <= g.Keys
    requires x in Visit(g, marked, head).marked && Path(Edges(g), marked, x, y, n)
    ensures y in Visit(g, marked, head).marked
    decreases n
  {
    if n > 0 {
      var z :| z in Edges(g)[x] && Path(Edges(g), marked, z, y, n - 1);
      VisitCloses(g, marked, head, x, z);
      PathStaysInside(g, marked, head, z, y, n - 1);
    }
  }

  /** On any graph, cyclic or not, and whatever is marked already: the files visited, each once, are
      exactly those that can be reached from head without touching a marked one. */
  lemma {:induction false} VisitsWhatIsReached<N>(g: Includes<N>, marked: set<N>, head: N)
    requires Closed(g) && head in g && marked <= g.Keys
    ensures Distinct(Visit(g, marked, head).order)
    ensures forall y :: y in Visit(g, marked, head).order <==> Reach(Edges(g), marked, head, y)
  {
    var r := Visit(g, marked, head);
    VisitMarksEachOnce(g, marked, head);
    forall y ensures y in r.order <==> Reach(Edges(g), marked, head, y) {
      if y in r.order {
        VisitedIsReached(g, marked, head, y);
      }
      if Reach(Edges(g), marked, head, y) {
        ReachEnds(Edges(g), marked, head, y);
        var n: nat :| Path(Edges(g), marked, head, y, n);
        VisitMarks(g, marked, head);
        PathStaysInside(g, marked, head, head, y, n);
      }
    }
  }

  // The dependencies printed for a source when no file is marked.
  ghost function Printed<N>(g: Includes<N>, source: N): seq<N>
    requires Closed(g) && source in g
  {
    Without(Visit(g, {}, source).order, source)
  }

  lemma {:induction false} WithoutIsDistinct<N>(s: seq<N>, x: N)
    requires Distinct(s)
    ensures Distinct(Without(s, x))
  {
    if s != [] {
      assert forall y :: y in s[1..] ==> y != s[0];
      WithoutIsDistinct(s[1..], x);
      DistinctJoin([s[0]], Without(s[1..], x));
      assert s[0] == x ==> Without(s, x) == Without(s[1..], x);
    }
  }

  /** The rule printed for a source names each file that it includes, directly or not, exactly once,
      and never the source itself, even when headers include it or one another. */
  lemma {:induction false} PrintsEachDependencyOnce<N>(g: Includes<N>, source: N)
    requires Closed(g) && source in g
    ensures Distinct(Printed(g, source)) && source !in Printed(g, source)
    ensures forall y :: y != source ==> (y in Printed(g, source) <==> Reach(Edges(g), {}, source, y))
  {
    VisitsWhatIsReached(g, {}, source);
    WithoutIsDistinct(Visit(g, {}, source).order, source);
  }

  // ---------------------------------------------------------------- the order

  lemma {:induction false} WithoutNothing<N>(s: seq<N>, x: N)
    requires x !in s
    ensures Without(s, x) == s
  {
    if s != [] { WithoutNothing(s[1..], x); }
  }

  lemma {:induction false} PrintedIsTheLoop<N>(g: Includes<N>, source: N)
    requires Closed(g) && source in g
    ensures Printed(g, source) == VisitAll(g, {source}, source, 0).order && Distinct(Printed(g, source))
  {
    var rest := VisitAll(g, {source}, source, 0);
    VisitAllMarksEachOnce(g, {source}, source, 0);
    assert {} + {source} == {source};
    assert Visit(g, {}, source).order == [source] + rest.order && ([source] + rest.order)[1..] == rest.order;
    WithoutNothing(rest.order, source);
  }

  // A file that can still be reached is either visited, or reached around all that is.
  lemma {:induction false} VisitedOrAround<N>(g: Includes<N>, marked: set<N>, head: N, x: N, y: N, n: nat)
    requires Closed(g) && head in g && marked <= g.Keys && Path(Edges(g), marked, x, y, n)
    ensures var v := Visit(g, marked, head).marked; y in v || Path(Edges(g), v, x, y, n)
    decreases n
  {
    if x in Visit(g, marked, head).marked {
      PathStaysInside(g, marked, head, x, y, n);
    } else if n > 0 {
      var z :| z in Edges(g)[x] && Path(Edges(g), marked, z, y, n - 1);
      VisitedOrAround(g, marked, head, z, y, n - 1);
    }
  }

  // y is reached from one of the files that head includes, from the one at from on and before the one at i.
  ghost predicate FromChildren<N>(g: Includes<N>, marked: set<N>, head: N, from: nat, i: nat, y: N)
    requires head in g && i <= |g[head]|
  {
    exists j :: from <= j < i && Reach(Edges(g), marked, g[head][j], y)
  }

  // The loop up to the i-th file, and the rest of it.
  lemma {:induction false} LoopSplits<N>(g: Includes<N>, marked: set<N>, head: N, from: nat, i: nat)
    returns (first: seq<N>, rest: seq<N>)
    requires Closed(g) && head in g && marked <= g.Keys && from <= i <= |g[head]|
    ensures VisitAll(g, marked, head, from).order == first + rest
    ensures forall y :: y in first <==> FromChildren(g, marked, head, from, i, y)
    decreases i - from
  {
    if from == i {
      first, rest := [], VisitAll(g, marked, head, from).order;
    } else {
      var c := g[head][from];
      var v := Visit(g, marked, c);
      var more;
      more, rest := LoopSplits(g, v.marked, head, from + 1, i);
      first := v.order + more;
      forall y ensures y in first <==> FromChildren(g, marked, head, from, i, y) {
        OneMoreChild(g, marked, head, from, i, y);
      }
      assert first + rest == v.order + (more + rest);
    }
  }

  lemma {:induction false} OneMoreChild<N>(g: Includes<N>, marked: set<N>, head: N, from: nat, i: nat, y: N)
    requires Closed(g) && head in g && marked <= g.Keys && from < i <= |g[head]|
    ensures var v := Visit(g, marked, g[head][from]);
      FromChildren(g, marked, head, from, i, y) <==> y in v.order || FromChildren(g, v.marked, head, from + 1, i, y)
  {
    var c := g[head][from];
    var v := Visit(g, marked, c);
    VisitsWhatIsReached(g, marked, c);
    VisitMarksEachOnce(g, marked, c);
    if FromChildren(g, v.marked, head, from + 1, i, y) {
      var j :| from + 1 <= j < i && Reach(Edges(g), v.marked, g[head][j], y);
      ReachMonotone(Edges(g), Edges(g), v.marked, marked, g[head][j], y);
    }
    if FromChildren(g, marked, head, from, i, y) && y !in v.order {
      var j :| from <= j < i && Reach(Edges(g), marked, g[head][j], y);
      var n: nat :| Path(Edges(g), marked, g[head][j], y, n);
      PathEnds(Edges(g), marked, g[head][j], y, n);
      VisitedOrAround(g, marked, c, g[head][j], y, n);
      assert Reach(Edges(g), v.marked, g[head][j], y) && j != from;
    }
  }

  /** What is reached from the files that the source includes first, around the source, is printed before
      everything else. */
  lemma {:induction false} EarlierIncludesFirst<N>(g: Includes<N>, source: N, i: nat, a: nat, b: nat)
    requires Closed(g) && source in g && i <= |g[source]|
    requires a < |Printed(g, source)| && FromChildren(g, {source}, source, 0, i, Printed(g, source)[a])
    requires b < |Printed(g, source)| && !FromChildren(g, {source}, source, 0, i, Printed(g, source)[b])
    ensures a < b
  {
    PrintedIsTheLoop(g, source);
    var first, rest := LoopSplits(g, {source}, source, 0, i);
    var order := Printed(g, source);
    assert forall m :: 0 <= m < |first| ==> order[m] == first[m] && first[m] in first;
    assert order[a] in first;
    var k :| 0 <= k < |first| && first[k] == order[a];
    assert order[k] == order[a];
  }

  /** A file is printed behind one that includes it, unless the source does. */
  lemma {:induction false} IncluderIsFirst<N>(g: Includes<N>, source: N, k: nat)
    requires Closed(g) && source in g && k < |Printed(g, source)|
    ensures var order := Printed(g, source);
      order[k] in g[source] || exists j :: 0 <= j < k && order[j] in g && order[k] in g[order[j]]
  {
    PrintedIsTheLoop(g, source);
    IncludedBefore(g, {source}, source, 0, k);
  }

  lemma {:induction false} IncludedBefore<N>(g: Includes<N>, marked: set<N>, head: N, i: nat, k: nat)
    requires Closed(g) && head in g && marked <= g.Keys && i <= |g[head]|
    requires k < |VisitAll(g, marked, head, i).order|
    ensures var order := VisitAll(g, marked, head, i).order;
      order[k] in g[head] || exists j :: 0 <= j < k && order[j] in g && order[k] in g[order[j]]
    decreases g.Keys - marked, |g[head]| - i
  {
    var c := g[head][i];
    var first, order := Visit(g, marked, c), VisitAll(g, marked, head, i).order;
    var rest := VisitAll(g, first.marked, head, i + 1).order;
    if k >= |first.order| {
      var m := k - |first.order|;
      IncludedBefore(g, first.marked, head, i + 1, m);
      if order[k] !in g[head] {
        var j :| 0 <= j < m && rest[j] in g && rest[m] in g[rest[j]];
        assert order[|first.order| + j] == rest[j];
      }
    } else if k > 0 {
      assert c in g.Keys - marked;
      var inner := VisitAll(g, marked + {c}, c, 0).order;
      IncludedBefore(g, marked + {c}, c, 0, k - 1);
      assert order[0] == c && order[k] == inner[k - 1];
      if inner[k - 1] !in g[c] {
        var j :| 0 <= j < k - 1 && inner[j] in g && inner[k - 1] in g[inner[j]];
        assert order[j + 1] == inner[j];
      }
    } else {
      assert order[0] == c;
    }
  }

  // ---------------------------------------------------------------- the file records

  ghost function IncludesOf(files: set<IncList>): (g: Includes<IncList>)
    reads files
    ensures g.Keys == files
  {
    map f | f in files :: f.i_list
  }

  ghost function MarkedOf(files: set<IncList>): (m: set<IncList>)
    reads files
    ensures m <= files
  {
    set f | f in files && f.marked
  }

  /** included_by: the edge is added unless it is there; the flags of the others stay. */
  method IncludedBy(ip: IncList?, newfile: IncList)
    requires ip != null ==> |ip.i_merged| == |ip.i_list|
    modifies if ip == null then {} else {ip}
    ensures ip != null ==> |ip.i_merged| == |ip.i_list| && newfile in ip.i_list
    ensures ip != null && newfile in old(ip.i_list)
      ==> ip.i_list == old(ip.i_list) && ip.i_merged == old(ip.i_merged)
    ensures ip != null && newfile !in old(ip.i_list)
      ==> ip.i_list == old(ip.i_list) + [newfile] && ip.i_merged == old(ip.i_merged) + [false]
    ensures ip != null && old(Distinct(ip.i_list)) ==> Distinct(ip.i_list)
    ensures ip != null ==> unchanged(ip`i_defs, ip`i_ndefs, ip`defs, ip`defchecked, ip`marked, ip`finished)
  {
    if ip == null { return; }
    var i := 0;
    while i < |ip.i_list|
      invariant i <= |ip.i_list| && newfile !in ip.i_list[..i]
      modifies {}
    {
      if ip.i_list[i] == newfile { return; }
      i := i + 1;
    }
    ip.i_list := ip.i_list + [newfile];
    ip.i_merged := ip.i_merged + [false];
  }

  /** recursive_pr_include; a file is told from the source by its name pointer, which no two entries
      share. */
  method RecursivePrInclude(ghost files: set<IncList>, head: IncList, source: IncList) returns (printed: seq<IncList>)
    requires head in files && Closed(IncludesOf(files))
    modifies files`marked
    ensures IncludesOf(files) == old(IncludesOf(files))
    ensures var r := Visit(old(IncludesOf(files)), old(MarkedOf(files)), head);
      MarkedOf(files) == r.marked && printed == Without(r.order, source)
    decreases files - MarkedOf(files), 1
  {
    if head.marked { return []; }
    ghost var g, marked := IncludesOf(files), MarkedOf(files);
    assert head in files - marked;
    head.marked := true;
    assert MarkedOf(files) == marked + {head} && IncludesOf(files) == g;
    var rest := PrintIncluded(files, head, source);
    WithoutJoin([head], VisitAll(g, marked + {head}, head, 0).order, source);
    printed := (if head != source then [head] else []) + rest;
  }

  // The loop over i_list.
  method PrintIncluded(ghost files: set<IncList>, head: IncList, source: IncList) returns (printed: seq<IncList>)
    requires head in files && Closed(IncludesOf(files))
    modifies files`marked
    ensures IncludesOf(files) == old(IncludesOf(files))
    ensures var r := VisitAll(old(IncludesOf(files)), old(MarkedOf(files)), head, 0);
      MarkedOf(files) == r.marked && printed == Without(r.order, source)
    decreases files - MarkedOf(files), 2
  {
    ghost var g, all := IncludesOf(files), VisitAll(IncludesOf(files), MarkedOf(files), head, 0);
    ghost var order := [];
    printed := [];
    var i := 0;
    while i < |head.i_list|
      invariant i <= |head.i_list| && IncludesOf(files) == g && old(MarkedOf(files)) <= MarkedOf(files)
      invariant printed == Without(order, source)
      invariant Resumes(all, order, VisitAll(g, MarkedOf(files), head, i))
    {
      ghost var marked := MarkedOf(files);
      ghost var first := Visit(g, marked, head.i_list[i]);
      var more := RecursivePrInclude(files, head.i_list[i], source);
      WithoutJoin(order, first.order, source);
      ResumesBehind(all, order, first.order, VisitAll(g, first.marked, head, i + 1));
      order := order + first.order;
      printed := printed + more;
      i := i + 1;
    }
    assert order + [] == order;
  }

  // The whole walk is what has been visited so far and the rest.
  ghost predicate Resumes<N>(all: Walked<N>, order: seq<N>, rest: Walked<N>) {
    all == Walked(rest.marked, order + rest.order)
  }

  lemma {:induction false} ResumesBehind<N>(all: Walked<N>, order: seq<N>, first: seq<N>, rest: Walked<N>)
    requires Resumes(all, order, Walked(rest.marked, first + rest.order))
    ensures Resumes(all, order + first, rest)
  {
    assert order + (first + rest.order) == (order + first) + rest.order;
  }

  lemma {:induction false} WithoutJoin<N>(a: seq<N>, b: seq<N>, x: N)
    ensures Without(a + b, x) == Without(a, x) + Without(b, x)
  {
    if a == [] {
      assert a + b == b;
    } else {
      assert (a + b)[1..] == a[1..] + b;
      WithoutJoin(a[1..], b, x);
    }
  }

  // inc_clean: the MARKED flags of all entries in use.
  method IncClean(inclist: seq<IncList>)
    modifies inclist`marked
    ensures forall f :: f in inclist ==> !f.marked
  {
    var ip := 0;
    while ip < |inclist|
      invariant ip <= |inclist| && forall k :: 0 <= k < ip ==> !inclist[k].marked
    {
      inclist[ip].marked := false;
      ip := ip + 1;
    }
  }

  /** What main does for one source once its includes have been found: the dependencies are printed,
      and all marks are gone again for the next source. */
  method PrintRule(inclist: seq<IncList>, source: IncList) returns (printed: seq<IncList>)
    requires source in inclist && Closed(IncludesOf(set f | f in inclist))
    requires forall f :: f in inclist ==> !f.marked
    modifies inclist`marked
    ensures printed == Printed(old(IncludesOf(set f | f in inclist)), source)
    ensures forall f :: f in inclist ==> !f.marked
    ensures IncludesOf(set f | f in inclist) == old(IncludesOf(set f | f in inclist))
  {
    ghost var files := set f | f in inclist;
    assert MarkedOf(files) == {};
    printed := RecursivePrInclude(files, source, source);
    IncClean(inclist);
    assert forall f :: f in files ==> f.i_list == old(f.i_list);
  }
}
