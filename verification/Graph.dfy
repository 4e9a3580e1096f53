/** Reachability in a finite directed graph, with a set of nodes a path may not touch. */
module Graph {

  ghost predicate Path<N>(g: map<N, set<N>>, avoid: set<N>, x: N, y: N, n: nat) {
    && x in g && x !in avoid
    && if n == 0 then x == y else exists z :: z in g[x] && Path(g, avoid, z, y, n - 1)
  }

  ghost predicate Reach<N>(g: map<N, set<N>>, avoid: set<N>, x: N, y: N) {
    exists n: nat :: Path(g, avoid, x, y, n)
  }

  ghost predicate Subgraph<N>(small: map<N, set<N>>, big: map<N, set<N>>) {
    small.Keys == big.Keys && forall u :: u in small ==> small[u] <= big[u]
  }

  lemma {:induction false} PathEnds<N>(g: map<N, set<N>>, avoid: set<N>, x: N, y: N, n: nat)
    requires Path(g, avoid, x, y, n)
    ensures y in g && y !in avoid
  {
    if n > 0 {
      var z :| z in g[x] && Path(g, avoid, z, y, n - 1);
      PathEnds(g, avoid, z, y, n - 1);
    }
  }

  lemma {:induction false} ReachEnds<N>(g: map<N, set<N>>, avoid: set<N>, x: N, y: N)
    requires Reach(g, avoid, x, y)
    ensures x in g && x !in avoid && y in g && y !in avoid
  {
    var n: nat :| Path(g, avoid, x, y, n);
    PathEnds(g, avoid, x, y, n);
  }

  lemma {:induction false} ReachSelf<N>(g: map<N, set<N>>, avoid: set<N>, x: N)
    requires x in g && x !in avoid
    ensures Reach(g, avoid, x, x)
  {
    assert Path(g, avoid, x, x, 0);
  }

  lemma {:induction false} ReachVia<N>(g: map<N, set<N>>, avoid: set<N>, x: N, z: N, y: N)
    requires x in g && x !in avoid && z in g[x] && Reach(g, avoid, z, y)
    ensures Reach(g, avoid, x, y)
  {
    var n: nat :| Path(g, avoid, z, y, n);
    assert Path(g, avoid, x, y, n + 1);
  }

  lemma {:induction false} PathJoin<N>(g: map<N, set<N>>, avoid: set<N>, x: N, y: N, z: N, n: nat)
    requires Path(g, avoid, x, y, n) && Reach(g, avoid, y, z)
    ensures Reach(g, avoid, x, z)
  {
    if n > 0 {
      var w :| w in g[x] && Path(g, avoid, w, y, n - 1);
      PathJoin(g, avoid, w, y, z, n - 1);
      ReachVia(g, avoid, x, w, z);
    }
  }

  lemma {:induction false} ReachTransitive<N>(g: map<N, set<N>>, avoid: set<N>, x: N, y: N, z: N)
    requires Reach(g, avoid, x, y) && Reach(g, avoid, y, z)
    ensures Reach(g, avoid, x, z)
  {
    var n: nat :| Path(g, avoid, x, y, n);
    PathJoin(g, avoid, x, y, z, n);
  }

  lemma {:induction false} PathMonotone<N>(small: map<N, set<N>>, big: map<N, set<N>>,
                                            more: set<N>, less: set<N>, x: N, y: N, n: nat)
    requires Subgraph(small, big) && less <= more && Path(small, more, x, y, n)
    ensures Path(big, less, x, y, n)
  {
    if n > 0 {
      var z :| z in small[x] && Path(small, more, z, y, n - 1);
      PathMonotone(small, big, more, less, z, y, n - 1);
    }
  }

  lemma {:induction false} ReachMonotone<N>(small: map<N, set<N>>, big: map<N, set<N>>,
                         more: set<N>, less: set<N>, x: N, y: N)
    requires Subgraph(small, big) && less <= more && Reach(small, more, x, y)
    ensures Reach(big, less, x, y)
  {
    var n: nat :| Path(small, more, x, y, n);
    PathMonotone(small, big, more, less, x, y, n);
  }

  // Cutting a path at its last visit to x.
  lemma {:induction false} LastVisit<N>(g: map<N, set<N>>, avoid: set<N>, x: N, w: N, y: N, n: nat)
    requires Path(g, avoid, w, y, n)
    ensures y == x || Path(g, avoid + {x}, w, y, n)
      || (x in g && exists c :: c in g[x] && Reach(g, avoid + {x}, c, y))
  {
    if n > 0 {
      var z :| z in g[w] && Path(g, avoid, z, y, n - 1);
      LastVisit(g, avoid, x, z, y, n - 1);
      if Path(g, avoid + {x}, z, y, n - 1) {
        assert Reach(g, avoid + {x}, z, y);
      }
    }
  }

  /** What x reaches, other than itself, a successor of x reaches without coming back to x. */
  lemma {:induction false} ReachFirstStep<N>(g: map<N, set<N>>, avoid: set<N>, x: N, y: N)
    requires Reach(g, avoid, x, y)
    ensures y == x || exists c :: c in g[x] && Reach(g, avoid + {x}, c, y)
  {
    var n: nat :| Path(g, avoid, x, y, n);
    LastVisit(g, avoid, x, x, y, n);
  }

  lemma {:induction false} PathSurvives<N>(g: map<N, set<N>>, h: map<N, set<N>>, avoid: set<N>,
                                            changed: set<N>, x: N, y: N, n: nat)
    requires g.Keys == h.Keys
    requires forall u :: u in g && u !in changed && u !in avoid ==> h[u] == g[u]
    requires forall u :: u in changed ==> !Reach(g, avoid, u, y)
    requires Path(g, avoid, x, y, n)
    ensures Path(h, avoid, x, y, n)
  {
    if n > 0 {
      assert Reach(g, avoid, x, y);
      var z :| z in g[x] && Path(g, avoid, z, y, n - 1);
      PathSurvives(g, h, avoid, changed, z, y, n - 1);
    }
  }

  /** A path to y survives any change of edges at nodes from which y was out of reach. */
  lemma {:induction false} ReachSurvives<N>(g: map<N, set<N>>, h: map<N, set<N>>, avoid: set<N>, changed: set<N>,
                                            x: N, y: N)
    requires g.Keys == h.Keys
    requires forall u :: u in g && u !in changed && u !in avoid ==> h[u] == g[u]
    requires forall u :: u in changed ==> !Reach(g, avoid, u, y)
    requires Reach(g, avoid, x, y)
    ensures Reach(h, avoid, x, y)
  {
    var n: nat :| Path(g, avoid, x, y, n);
    PathSurvives(g, h, avoid, changed, x, y, n);
  }

  // A path through one new edge, from x to c: it comes to x, and goes on from c.
  lemma {:induction false} PathThroughNewEdge<N>(g: map<N, set<N>>, h: map<N, set<N>>, x: N, c: N, u: N, y: N, n: nat)
    requires x in g && c in g && h == g[x := g[x] + {c}] && Path(h, {}, u, y, n)
    ensures Reach(g, {}, u, y) || (Reach(g, {}, u, x) && Reach(g, {}, c, y))
  {
    if n == 0 {
      ReachSelf(g, {}, u);
    } else {
      var z :| z in h[u] && Path(h, {}, z, y, n - 1);
      PathThroughNewEdge(g, h, x, c, z, y, n - 1);
      if z in g[u] {
        if Reach(g, {}, z, y) { ReachVia(g, {}, u, z, y); } else { ReachVia(g, {}, u, z, x); }
      } else {
        ReachSelf(g, {}, x);
      }
    }
  }

  /** What is reached once an edge has been added. */
  lemma {:induction false} ReachWithNewEdge<N>(g: map<N, set<N>>, h: map<N, set<N>>, x: N, c: N, u: N, y: N)
    requires x in g && c in g && h == g[x := g[x] + {c}]
    ensures Reach(h, {}, u, y) <==> Reach(g, {}, u, y) || (Reach(g, {}, u, x) && Reach(g, {}, c, y))
  {
    if Reach(h, {}, u, y) {
      var n: nat :| Path(h, {}, u, y, n);
      PathThroughNewEdge(g, h, x, c, u, y, n);
    }
    if Reach(g, {}, u, y) { ReachMonotone(g, h, {}, {}, u, y); }
    if Reach(g, {}, u, x) && Reach(g, {}, c, y) {
      ReachMonotone(g, h, {}, {}, u, x);
      ReachMonotone(g, h, {}, {}, c, y);
      ReachEnds(h, {}, u, x);
      ReachVia(h, {}, x, c, y);
      ReachTransitive(h, {}, u, x, y);
    }
  }
}
