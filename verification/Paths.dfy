/** Paths as lists of components, cancelling x/.. pairs, and what a path resolves to before and after. */
module Paths {
  import opened Names

  type Components = seq<string>

  predicate IsComponent(x: string) {
    x != [] && '/' !in x
  }

  predicate AreComponents(cs: Components) {
    forall i :: 0 <= i < |cs| ==> IsComponent(cs[i])
  }

  predicate Ordinary(x: string) {
    x != "." && x != ".."
  }

  // The pair x/y is removed: x an ordinary component that is not a symbolic link, y the parent.
  predicate Cancels(symbolic: string -> bool, x: string, y: string) {
    Ordinary(x) && y == ".." && !symbolic(x)
  }

  predicate CancelsAt(symbolic: string -> bool, cs: Components, i: int) {
    0 <= i < |cs| - 1 && Cancels(symbolic, cs[i], cs[i + 1])
  }

  function Cancelled(cs: Components, i: int): (r: Components)
    requires 0 <= i < |cs| - 1
    ensures |r| == |cs| - 2
  {
    cs[..i] + cs[i + 2..]
  }

  ghost predicate Irreducible(symbolic: string -> bool, cs: Components) {
    forall i :: !CancelsAt(symbolic, cs, i)
  }

  // ---------------------------------------------------------------- reduction with a stack

  function Push(symbolic: string -> bool, stack: Components, x: string): (r: Components)
    ensures |r| <= |stack| + 1
  {
    if stack != [] && Cancels(symbolic, stack[|stack| - 1], x) then stack[..|stack| - 1] else stack + [x]
  }

  function Fold(symbolic: string -> bool, stack: Components, rest: Components): (r: Components)
    ensures |r| <= |stack| + |rest|
    decreases |rest|
  {
    if rest == [] then stack else Fold(symbolic, Push(symbolic, stack, rest[0]), rest[1..])
  }

  function Reduce(symbolic: string -> bool, cs: Components): (r: Components)
    ensures |r| <= |cs|
  {
    Fold(symbolic, [], cs)
  }

  lemma {:induction false} CancelKeepsFold(symbolic: string -> bool, stack: Components, cs: Components, i: nat)
    requires CancelsAt(symbolic, cs, i)
    ensures Fold(symbolic, stack, Cancelled(cs, i)) == Fold(symbolic, stack, cs)
    decreases i
  {
    if i == 0 {
      assert cs == [cs[0], cs[1]] + cs[2..] && Cancelled(cs, 0) == cs[2..];
    } else {
      assert Cancelled(cs, i) == [cs[0]] + Cancelled(cs[1..], i - 1) && cs == [cs[0]] + cs[1..];
      CancelKeepsFold(symbolic, Push(symbolic, stack, cs[0]), cs[1..], i - 1);
    }
  }

  // A stack without a pair swallows a rest that brings none.
  lemma {:induction false} FoldOfIrreducible(symbolic: string -> bool, stack: Components, rest: Components)
    requires Irreducible(symbolic, stack + rest)
    ensures Fold(symbolic, stack, rest) == stack + rest
    decreases |rest|
  {
    if rest == [] {
      assert stack + rest == stack;
    } else {
      var next := stack + [rest[0]];
      assert next + rest[1..] == stack + rest;
      assert !CancelsAt(symbolic, stack + rest, |stack| - 1);
      FoldOfIrreducible(symbolic, next, rest[1..]);
    }
  }

  // ---------------------------------------------------------------- the normal form

  // ds comes from cs by removing pairs, one after the other, in any order.
  ghost predicate RewritesTo(symbolic: string -> bool, cs: Components, ds: Components)
    decreases |cs|
  {
    cs == ds || exists i :: CancelsAt(symbolic, cs, i) && RewritesTo(symbolic, Cancelled(cs, i), ds)
  }

  lemma {:induction false} ReduceIsReached(symbolic: string -> bool, cs: Components)
    ensures RewritesTo(symbolic, cs, Reduce(symbolic, cs))
    ensures Irreducible(symbolic, Reduce(symbolic, cs))
    decreases |cs|
  {
    if Irreducible(symbolic, cs) {
      assert [] + cs == cs;
      FoldOfIrreducible(symbolic, [], cs);
    } else {
      var i :| CancelsAt(symbolic, cs, i);
      CancelKeepsFold(symbolic, [], cs, i);
      ReduceIsReached(symbolic, Cancelled(cs, i));
    }
  }

  lemma {:induction false} RewritingKeepsReduce(symbolic: string -> bool, cs: Components, ds: Components)
    requires RewritesTo(symbolic, cs, ds)
    ensures Reduce(symbolic, cs) == Reduce(symbolic, ds)
    decreases |cs|
  {
    if cs != ds {
      var i :| CancelsAt(symbolic, cs, i) && RewritesTo(symbolic, Cancelled(cs, i), ds);
      CancelKeepsFold(symbolic, [], cs, i);
      RewritingKeepsReduce(symbolic, Cancelled(cs, i), ds);
    }
  }

  /** Whatever the order in which pairs are removed, exactly one list without a pair is reached. */
  lemma {:induction false} ReduceIsTheNormalForm(symbolic: string -> bool, cs: Components, ds: Components)
    ensures RewritesTo(symbolic, cs, ds) && Irreducible(symbolic, ds) <==> ds == Reduce(symbolic, cs)
  {
    ReduceIsReached(symbolic, cs);
    if RewritesTo(symbolic, cs, ds) && Irreducible(symbolic, ds) {
      RewritingKeepsReduce(symbolic, cs, ds);
      assert [] + ds == ds;
      FoldOfIrreducible(symbolic, [], ds);
    }
  }

  /** A second reduction changes nothing. */
  lemma {:induction false} ReduceIsIdempotent(symbolic: string -> bool, cs: Components)
    ensures Reduce(symbolic, Reduce(symbolic, cs)) == Reduce(symbolic, cs)
  {
    var ds := Reduce(symbolic, cs);
    ReduceIsReached(symbolic, cs);
    assert [] + ds == ds;
    FoldOfIrreducible(symbolic, [], ds);
  }

  // ---------------------------------------------------------------- what is dropped

  function Count(cs: Components, x: string): nat {
    if cs == [] then 0 else (if cs[0] == x then 1 else 0) + Count(cs[1..], x)
  }

  lemma {:induction false} CountCancelled(cs: Components, i: nat, x: string)
    requires i + 1 < |cs|
    ensures Count(cs, x) == Count(Cancelled(cs, i), x) + Count([cs[i], cs[i + 1]], x)
    decreases i
  {
    if i == 0 {
      assert Cancelled(cs, 0) == cs[2..] && cs[1..][1..] == cs[2..];
      assert [cs[0], cs[1]][1..] == [cs[1]];
      assert Count([cs[1]], x) == if cs[1] == x then 1 else 0;
    } else {
      assert Cancelled(cs, i)[0] == cs[0] && Cancelled(cs, i)[1..] == Cancelled(cs[1..], i - 1);
      CountCancelled(cs[1..], i - 1, x);
    }
  }

  lemma {:induction false} ReduceDropsOnly(symbolic: string -> bool, cs: Components, x: string)
    ensures Count(Reduce(symbolic, cs), x) <= Count(cs, x)
    ensures Ordinary(x) && symbolic(x) ==> Count(Reduce(symbolic, cs), x) == Count(cs, x)
    decreases |cs|
  {
    if Irreducible(symbolic, cs) {
      ReduceIsTheNormalForm(symbolic, cs, cs);
    } else {
      var i :| CancelsAt(symbolic, cs, i);
      CancelKeepsFold(symbolic, [], cs, i);
      CountCancelled(cs, i, x);
      assert [cs[i], cs[i + 1]][1..] == [cs[i + 1]];
      assert Ordinary(x) && symbolic(x) ==> Count([cs[i + 1]], x) == 0 && Count([cs[i], cs[i + 1]], x) == 0;
      ReduceDropsOnly(symbolic, Cancelled(cs, i), x);
    }
  }

  // From a list of which depth names are still open: the rest closes them, and opens and closes its own.
  predicate Balances(symbolic: string -> bool, cs: Components, depth: nat) {
    if cs == [] then depth == 0
    else if cs[0] == ".." then depth > 0 && Balances(symbolic, cs[1..], depth - 1)
    else Ordinary(cs[0]) && !symbolic(cs[0]) && Balances(symbolic, cs[1..], depth + 1)
  }

  predicate Droppable(symbolic: string -> bool, cs: Components) {
    forall i :: 0 <= i < |cs| ==> Ordinary(cs[i]) && !symbolic(cs[i])
  }

  // What can never be dropped stays on the stack for good.
  lemma {:induction false} StuckStays(symbolic: string -> bool, stack: Components, rest: Components)
    requires !Droppable(symbolic, stack)
    ensures Fold(symbolic, stack, rest) != []
    decreases |rest|
  {
    if rest != [] {
      var i :| 0 <= i < |stack| && !(Ordinary(stack[i]) && !symbolic(stack[i]));
      var next := Push(symbolic, stack, rest[0]);
      assert next[i] == stack[i];
      StuckStays(symbolic, next, rest[1..]);
    }
  }

  // A parent closes the last name; anything else is put on top, where it may be stuck.
  lemma {:induction false} PushOnDroppable(symbolic: string -> bool, stack: Components, x: string)
    requires Droppable(symbolic, stack)
    ensures var next := Push(symbolic, stack, x);
      if x == ".." && stack != [] then Droppable(symbolic, next) && |next| == |stack| - 1
      else |next| == |stack| + 1 && (Droppable(symbolic, next) <==> Ordinary(x) && !symbolic(x))
  {
    var next := Push(symbolic, stack, x);
    if |next| == |stack| + 1 { assert next[|stack|] == x; }
  }

  lemma {:induction false} FoldBalances(symbolic: string -> bool, stack: Components, rest: Components)
    requires Droppable(symbolic, stack)
    ensures Fold(symbolic, stack, rest) == [] <==> Balances(symbolic, rest, |stack|)
    decreases |rest|
  {
    if rest != [] {
      var x := rest[0];
      var next := Push(symbolic, stack, x);
      PushOnDroppable(symbolic, stack, x);
      if Droppable(symbolic, next) {
        FoldBalances(symbolic, next, rest[1..]);
      } else {
        StuckStays(symbolic, next, rest[1..]);
      }
    }
  }

  /** Nothing is left exactly when the parents close the names before them like brackets, none of
      which is reported as a link. */
  lemma {:induction false} NothingLeftWhenBalanced(symbolic: string -> bool, cs: Components)
    ensures Reduce(symbolic, cs) == [] <==> Balances(symbolic, cs, 0)
  {
    FoldBalances(symbolic, [], cs);
  }

  // ---------------------------------------------------------------- resolution

  // A file system seen from its directories: what a name leads to, following links; the parent;
  // and which names are symbolic links.
  datatype FileSystem<!D> = FileSystem(
    root: D, enter: (D, string) -> Option<D>, parent: D -> D, link: (D, string) -> bool)

  // The parent of what a name that is no link leads to is where the name stands.
  ghost predicate Lawful<D(!new)>(fs: FileSystem<D>) {
    forall d, x, e :: IsComponent(x) && Ordinary(x) && !fs.link(d, x) && fs.enter(d, x) == Some(e) ==> fs.parent(e) == d
  }

  function Step<D>(fs: FileSystem<D>, d: D, x: string): Option<D> {
    if x == "." then Some(d) else if x == ".." then Some(fs.parent(d)) else fs.enter(d, x)
  }

  function Walk<D>(fs: FileSystem<D>, d: D, cs: Components): Option<D> {
    if cs == [] then Some(d)
    else match Step(fs, d, cs[0])
      case None => None
      case Some(e) => Walk(fs, e, cs[1..])
  }

  // What cs resolves to, ds resolves to as well.
  predicate SamePlace<D(==)>(fs: FileSystem<D>, d: D, cs: Components, ds: Components) {
    Walk(fs, d, cs).Some? ==> Walk(fs, d, ds) == Walk(fs, d, cs)
  }

  lemma {:induction false} WalkOn<D>(fs: FileSystem<D>, d: D, cs: Components, ds: Components)
    ensures Walk(fs, d, cs + ds) == match Walk(fs, d, cs) case None => None case Some(e) => Walk(fs, e, ds)
    decreases |cs|
  {
    if cs == [] {
      assert cs + ds == ds;
    } else {
      assert (cs + ds)[1..] == cs[1..] + ds;
      var next := Step(fs, d, cs[0]);
      if next.Some? { WalkOn(fs, next.value, cs[1..], ds); }
    }
  }

  lemma {:induction false} WalkOne<D>(fs: FileSystem<D>, d: D, cs: Components, x: string)
    ensures Walk(fs, d, cs + [x]) == match Walk(fs, d, cs) case None => None case Some(e) => Step(fs, e, x)
  {
    WalkOn(fs, d, cs, [x]);
    var at := Walk(fs, d, cs);
    if at.Some? { assert Walk(fs, at.value, [x]) == Step(fs, at.value, x); }
  }

  // ---------------------------------------------------------------- one file system, all paths

  // issymbolic answers for the directory in which the path starts, whatever has been walked since.
  function LinksIn<D>(fs: FileSystem<D>, d: D): string -> bool {
    x => fs.link(d, x)
  }

  ghost predicate Leads<D(!new)>(fs: FileSystem<D>, d: D, e: D) {
    exists cs :: AreComponents(cs) && Walk(fs, d, cs) == Some(e)
  }

  // Wherever a path from d comes by a link that is not also one in d, the link leads to a child of
  // the directory in which it stands.
  ghost predicate Tame<D(!new)>(fs: FileSystem<D>, d: D) {
    forall e, x, t ::
      Leads(fs, d, e) && IsComponent(x) && Ordinary(x) && fs.link(e, x) && !fs.link(d, x) && fs.enter(e, x) == Some(t)
      ==> fs.parent(t) == e
  }

  lemma {:induction false} LeadsOn<D(!new)>(fs: FileSystem<D>, d: D, e: D, x: string)
    requires Leads(fs, d, e) && IsComponent(x) && Step(fs, e, x).Some?
    ensures Leads(fs, d, Step(fs, e, x).value)
  {
    var cs :| AreComponents(cs) && Walk(fs, d, cs) == Some(e);
    WalkOne(fs, d, cs, x);
    assert AreComponents(cs + [x]);
  }

  lemma {:induction false} CancelKeepsPlace<D(!new)>(fs: FileSystem<D>, d: D, e: D, cs: Components, i: nat)
    requires Lawful(fs) && Tame(fs, d) && Leads(fs, d, e) && AreComponents(cs) && CancelsAt(LinksIn(fs, d), cs, i)
    ensures SamePlace(fs, e, cs, Cancelled(cs, i))
    decreases i
  {
    var next := Step(fs, e, cs[0]);
    if next.Some? {
      if i == 0 {
        assert Cancelled(cs, 0) == cs[2..] && cs[1..][0] == cs[1] && cs[1..][1..] == cs[2..];
      } else {
        assert Cancelled(cs, i)[0] == cs[0] && Cancelled(cs, i)[1..] == Cancelled(cs[1..], i - 1);
        LeadsOn(fs, d, e, cs[0]);
        CancelKeepsPlace(fs, d, next.value, cs[1..], i - 1);
      }
    }
  }

  lemma {:induction false} TameIsRight<D(!new)>(fs: FileSystem<D>, d: D, cs: Components)
    requires Lawful(fs) && Tame(fs, d) && AreComponents(cs)
    ensures SamePlace(fs, d, cs, Reduce(LinksIn(fs, d), cs))
    decreases |cs|
  {
    var symbolic := LinksIn(fs, d);
    if Irreducible(symbolic, cs) {
      ReduceIsTheNormalForm(symbolic, cs, cs);
    } else {
      var i :| CancelsAt(symbolic, cs, i);
      CancelKeepsFold(symbolic, [], cs, i);
      assert AreComponents([]) && Walk(fs, d, []) == Some(d);
      CancelKeepsPlace(fs, d, d, cs, i);
      TameIsRight(fs, d, Cancelled(cs, i));
    }
  }

  // A name that is dropped behind any path whatever.
  lemma {:induction false} ReduceOfPair(symbolic: string -> bool, cs: Components, x: string)
    requires Ordinary(x) && !symbolic(x)
    ensures Reduce(symbolic, cs + [x, ".."]) == Reduce(symbolic, cs)
  {
    var ds := cs + [x, ".."];
    assert ds[|cs|] == x && ds[|cs| + 1] == ".." && Cancelled(ds, |cs|) == cs;
    assert CancelsAt(symbolic, ds, |cs|);
    CancelKeepsFold(symbolic, [], ds, |cs|);
  }

  lemma {:induction false} WildLinkGoesWrong<D(!new)>(fs: FileSystem<D>, d: D, cs: Components, e: D, x: string, t: D)
    requires AreComponents(cs) && Walk(fs, d, cs) == Some(e) && IsComponent(x) && Ordinary(x)
    requires !fs.link(d, x) && fs.enter(e, x) == Some(t) && fs.parent(t) != e
    ensures var symbolic := LinksIn(fs, d);
      !SamePlace(fs, d, cs, Reduce(symbolic, cs)) || !SamePlace(fs, d, cs + [x, ".."], Reduce(symbolic, cs + [x, ".."]))
  {
    ReduceOfPair(LinksIn(fs, d), cs, x);
    WalkOn(fs, d, cs, [x, ".."]);
    assert [x, ".."][1..] == [".."] && Walk(fs, t, [".."]) == Some(fs.parent(t));
    assert Walk(fs, d, cs + [x, ".."]) == Some(fs.parent(t));
  }

  /** In a given file system the removal is right for every path from d if and only if the file system
      is tame from d: links that issymbolic cannot know of are harmless only where they lead to a
      child of their own directory. */
  lemma {:induction false} RightExactlyWhenTame<D(!new)>(fs: FileSystem<D>, d: D)
    requires Lawful(fs)
    ensures Tame(fs, d) <==> forall cs :: AreComponents(cs) ==> SamePlace(fs, d, cs, Reduce(LinksIn(fs, d), cs))
  {
    if Tame(fs, d) {
      forall cs | AreComponents(cs) ensures SamePlace(fs, d, cs, Reduce(LinksIn(fs, d), cs)) {
        TameIsRight(fs, d, cs);
      }
    } else {
      var e, x, t :| Leads(fs, d, e) && IsComponent(x) && Ordinary(x) && !fs.link(d, x)
        && fs.enter(e, x) == Some(t) && fs.parent(t) != e;
      var cs :| AreComponents(cs) && Walk(fs, d, cs) == Some(e);
      WildLinkGoesWrong(fs, d, cs, e, x, t);
      assert AreComponents(cs + [x, ".."]);
    }
  }

  // ---------------------------------------------------------------- one path, all file systems

  // Where a path is for sure, knowing only which names are links where it starts: there, in a child
  // of that directory, or anywhere.
  datatype Place = Start | Child | Away(steps: nat)

  // The least obliging of these file systems: outside the starting directory every name is a link,
  // and no step leads back.
  function Strange(symbolic: string -> bool): FileSystem<Place> {
    FileSystem(
      Start,
      (d: Place, x: string) => Some(
        if d.Start? && !symbolic(x) then Child else if d.Away? then Away(d.steps + 1) else Away(0)),
      (d: Place) => if d.Child? then Start else if d.Away? then Away(d.steps + 1) else Away(0),
      (d: Place, x: string) => !d.Start? || symbolic(x))
  }

  lemma {:induction false} StrangeWalks(symbolic: string -> bool, d: Place, cs: Components)
    ensures Walk(Strange(symbolic), d, cs).Some?
    decreases |cs|
  {
    if cs != [] { StrangeWalks(symbolic, Step(Strange(symbolic), d, cs[0]).value, cs[1..]); }
  }

  function Position(symbolic: string -> bool, cs: Components): Place {
    StrangeWalks(symbolic, Start, cs);
    Walk(Strange(symbolic), Start, cs).value
  }

  lemma {:induction false} PositionOn(symbolic: string -> bool, cs: Components, x: string)
    ensures Position(symbolic, cs + [x]) == Step(Strange(symbolic), Position(symbolic, cs), x).value
  {
    StrangeWalks(symbolic, Start, cs);
    WalkOne(Strange(symbolic), Start, cs, x);
  }

  // Whatever is dropped while rest is read stands in the starting directory.
  predicate DropsAtStart(symbolic: string -> bool, stack: Components, rest: Components)
    decreases |rest|
  {
    rest == [] ||
    (var next := Push(symbolic, stack, rest[0]);
     (|next| < |stack| ==> Position(symbolic, next).Start?) && DropsAtStart(symbolic, next, rest[1..]))
  }

  ghost predicate Truthful<D(!new)>(symbolic: string -> bool, fs: FileSystem<D>, d: D) {
    forall x :: IsComponent(x) ==> symbolic(x) == fs.link(d, x)
  }

  lemma {:induction false} PositionIsSure<D(!new)>(symbolic: string -> bool, fs: FileSystem<D>, d: D, cs: Components)
    requires Lawful(fs) && Truthful(symbolic, fs, d) && AreComponents(cs) && Walk(fs, d, cs).Some?
    ensures match Position(symbolic, cs)
      case Start => Walk(fs, d, cs) == Some(d)
      case Child => fs.parent(Walk(fs, d, cs).value) == d
      case Away(_) => true
    decreases |cs|
  {
    if cs != [] {
      var n := |cs| - 1;
      var x, ds := cs[n], cs[..n];
      assert cs == ds + [x] && IsComponent(x);
      PositionOn(symbolic, ds, x);
      WalkOne(fs, d, ds, x);
      PositionIsSure(symbolic, fs, d, ds);
    }
  }

  // The stack leads where what has been read leads.
  lemma {:induction false} FoldKeepsPlace<D(!new)>(symbolic: string -> bool, fs: FileSystem<D>, d: D, read: Components,
                                                   stack: Components, rest: Components)
    requires Lawful(fs) && Truthful(symbolic, fs, d) && AreComponents(stack) && AreComponents(rest)
    requires SamePlace(fs, d, read, stack) && DropsAtStart(symbolic, stack, rest)
    ensures SamePlace(fs, d, read + rest, Fold(symbolic, stack, rest))
    decreases |rest|
  {
    if rest == [] {
      assert read + rest == read;
    } else {
      var x := rest[0];
      assert read + rest == (read + [x]) + rest[1..];
      assert IsComponent(x) && AreComponents(rest[1..]);
      PushKeepsPlace(symbolic, fs, d, read, stack, x);
      assert Fold(symbolic, stack, rest) == Fold(symbolic, Push(symbolic, stack, x), rest[1..]);
      FoldKeepsPlace(symbolic, fs, d, read + [x], Push(symbolic, stack, x), rest[1..]);
    }
  }

  lemma {:induction false} PushKeepsPlace<D(!new)>(symbolic: string -> bool, fs: FileSystem<D>, d: D, read: Components,
                                                   stack: Components, x: string)
    requires Lawful(fs) && Truthful(symbolic, fs, d) && AreComponents(stack) && IsComponent(x)
    requires SamePlace(fs, d, read, stack)
    requires var next := Push(symbolic, stack, x); |next| < |stack| ==> Position(symbolic, next).Start?
    ensures AreComponents(Push(symbolic, stack, x)) && SamePlace(fs, d, read + [x], Push(symbolic, stack, x))
  {
    var next := Push(symbolic, stack, x);
    WalkOne(fs, d, read, x);
    if |next| < |stack| {
      var y := stack[|stack| - 1];
      assert stack == next + [y] && IsComponent(y);
      WalkOne(fs, d, next, y);
      if Walk(fs, d, next).Some? { PositionIsSure(symbolic, fs, d, next); }
    } else {
      WalkOne(fs, d, stack, x);
    }
  }

  // Behind p by less than q, and q will never come back.
  predicate Beyond(p: Place, q: Place) {
    q.Away? && (p.Away? ==> p.steps < q.steps)
  }

  // Once something has been dropped elsewhere, the strange file system tells the two apart.
  lemma {:induction false} FoldFallsBehind(symbolic: string -> bool, read: Components, stack: Components,
                                           rest: Components)
    requires Beyond(Position(symbolic, stack), Position(symbolic, read))
      || (Position(symbolic, stack) == Position(symbolic, read) && !DropsAtStart(symbolic, stack, rest))
    ensures Beyond(Position(symbolic, Fold(symbolic, stack, rest)), Position(symbolic, read + rest))
    decreases |rest|
  {
    if rest == [] {
      assert read + rest == read;
    } else {
      var x := rest[0];
      var next := Push(symbolic, stack, x);
      assert read + rest == (read + [x]) + rest[1..];
      PositionOn(symbolic, read, x);
      if |next| < |stack| {
        assert stack == next + [stack[|stack| - 1]];
        PositionOn(symbolic, next, stack[|stack| - 1]);
      } else {
        PositionOn(symbolic, stack, x);
      }
      FoldFallsBehind(symbolic, read + [x], next, rest[1..]);
    }
  }

  /** A given path is reduced rightly, in every file system whose links in the starting directory are
      the ones reported, if and only if every name it loses stands in that directory. */
  lemma {:induction false} RightExactlyWhenDroppedAtStart(symbolic: string -> bool, cs: Components)
    requires AreComponents(cs)
    ensures DropsAtStart(symbolic, [], cs) <==>
      forall fs: FileSystem<Place>, d: Place ::
        Lawful(fs) && Truthful(symbolic, fs, d) ==> SamePlace(fs, d, cs, Reduce(symbolic, cs))
  {
    assert [] + cs == cs;
    if DropsAtStart(symbolic, [], cs) {
      forall fs: FileSystem<Place>, d: Place | Lawful(fs) && Truthful(symbolic, fs, d)
        ensures SamePlace(fs, d, cs, Reduce(symbolic, cs))
      {
        FoldKeepsPlace(symbolic, fs, d, [], [], cs);
      }
    } else {
      FoldFallsBehind(symbolic, [], [], cs);
      StrangeWalks(symbolic, Start, cs);
      var fs := Strange(symbolic);
      assert Lawful(fs) && Truthful(symbolic, fs, Start) && !SamePlace(fs, Start, cs, Reduce(symbolic, cs));
    }
  }
}
