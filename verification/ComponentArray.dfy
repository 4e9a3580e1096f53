/** The loops of remove_dotdot (config/makedepend/include.c:85-153): slicing the path, shifting
    cancelled pairs out of the NULL-terminated array of components, and joining what is left. */
module ComponentArray {
  import opened Names
  import opened Paths
  import opened RemoveDotDot

  ghost predicate StartsWith(slots: seq<Option<string>>, cs: Components) {
    |cs| <= |slots| && forall i :: 0 <= i < |cs| ==> slots[i] == Some(cs[i])
  }

  // The array holds cs and then NULL.
  ghost predicate Holds(slots: seq<Option<string>>, cs: Components) {
    |cs| < |slots| && (forall i :: 0 <= i < |cs| ==> slots[i] == Some(cs[i])) && slots[|cs|] == None
  }

  // *end++ past a run of slashes.
  method PassSlashes(path: string, from: nat) returns (end: nat)
    requires from <= |path|
    ensures from <= end <= |path| && path[end..] == SkipSlashes(path[from..])
  {
    end := from;
    while At(path, end) == '/'
      invariant from <= end <= |path|
      invariant SkipSlashes(path[end..]) == SkipSlashes(path[from..])
      decreases |path| - end
    {
      assert end < |path| && path[end..][1..] == path[end + 1..];
      end := end + 1;
    }
    assert end < |path| ==> path[end..][0] == path[end];
  }

  ghost predicate NoSlash(path: string, from: nat, end: nat) {
    forall i :: from <= i < end && i < |path| ==> path[i] != '/'
  }

  lemma {:induction false} SplitAtSlash(w: string, t: string, rest: string)
    requires '/' !in w && t != [] && t[0] == '/' && rest == SkipSlashes(t) && rest != []
    ensures Split(w + t) == (if w == [] then [] else [w]) + Split(rest)
  {
    assert Split(t) == Split(rest);
    if w == [] {
      assert w + t == t;
      assert [] + Split(rest) == Split(rest);
    } else {
      SplitOfWord(w, t);
    }
  }

  lemma {:induction false} SlashIsNotLast(path: string, slash: nat, end: nat)
    requires !EndsInSlash(path) && slash < |path| && slash <= end <= |path|
    requires path[slash] == '/' && path[end..] == SkipSlashes(path[slash..])
    ensures end < |path| && path[end] != '/'
  {
    var t := path[slash..];
    assert t[|t| - 1] == path[|path| - 1];
    SkipSlashesKeepsEnd(t);
    assert path[end..][0] == path[end];
  }

  lemma {:induction false} CutInTwo(path: string, from: nat, slash: nat)
    requires from <= slash < |path| && NoSlash(path, from, slash)
    ensures path[from..] == path[from..slash] + path[slash..] && '/' !in path[from..slash]
  {
  }

  // One turn of the slicing loop: the component before a run of slashes, if there is one.
  lemma {:induction false} SliceTurn(path: string, sofar: Components, from: nat, slash: nat, end: nat)
    requires !EndsInSlash(path) && from <= slash < |path| && NoSlash(path, from, slash) && path[slash] == '/'
    requires slash <= end <= |path| && path[end..] == SkipSlashes(path[slash..])
    requires Split(path) == sofar + Split(path[from..])
    ensures end < |path| && path[end] != '/'
    ensures Split(path) == (sofar + if from < slash then [path[from..slash]] else []) + Split(path[end..])
  {
    var w, t := path[from..slash], path[slash..];
    SlashIsNotLast(path, slash, end);
    CutInTwo(path, from, slash);
    SplitAtSlash(w, t, path[end..]);
    Regroup(sofar, if w == [] then [] else [w], Split(path[end..]));
  }

  lemma {:induction false} SliceEnd(path: string, from: nat)
    requires from <= |path| && (from < |path| || path == []) && NoSlash(path, from, |path|)
    ensures Split(path[from..]) == [path[from..]]
  {
    var w := path[from..];
    if w != [] {
      assert '/' !in w;
      SplitOfWord(w, []);
      assert w + [] == w;
    }
  }

  // One more component behind those found so far.
  method Store(components: array<Option<string>>, ghost sofar: Components, n: nat, x: string)
    requires StartsWith(components[..], sofar) && n == |sofar| < components.Length
    modifies components
    ensures StartsWith(components[..], sofar + [x])
  {
    components[n] := Some(x);
    assert forall i :: 0 <= i < n ==> components[i] == old(components[..][i]);
  }

  // The last component, and the NULL that ends the array.
  method StoreLast(components: array<Option<string>>, ghost sofar: Components, n: nat, x: string)
    requires StartsWith(components[..], sofar) && n == |sofar| && n + 1 < components.Length
    modifies components
    ensures Holds(components[..], sofar + [x])
  {
    Store(components, sofar, n, x);
    components[n + 1] := None;
  }

  // Slices the path up into components.
  method Slice(path: string, components: array<Option<string>>)
    requires !EndsInSlash(path) && |Split(path)| < components.Length
    modifies components
    ensures Holds(components[..], Split(path))
  {
    var n, from, end := 0, 0, 0;
    ghost var sofar: Components := [];
    assert path[0..] == path;
    while end < |path|
      invariant from <= end <= |path| && (from < |path| || path == []) && NoSlash(path, from, end)
      invariant Split(path) == sofar + Split(path[from..])
      invariant n == |sofar| && StartsWith(components[..], sofar)
    {
      if path[end] == '/' {
        var slash := end;
        end := PassSlashes(path, end);
        SliceTurn(path, sofar, from, slash, end);
        assert |sofar| < |Split(path)|;
        if from < slash {
          Store(components, sofar, n, path[from..slash]);
          n := n + 1;
          sofar := sofar + [path[from..slash]];
        } else {
          assert sofar + [] == sofar;
        }
        from := end;
      }
      end := end + 1;
    }
    SliceEnd(path, from);
    assert |Split(path)| == |sofar| + 1;
    StoreLast(components, sofar, n, path[from..]);
  }

  // Moves all the pointers behind the pair at cp down by two, the final NULL included.
  method ShiftDown(components: array<Option<string>>, cp: nat, ghost cs: Components)
    requires Holds(components[..], cs) && cp + 1 < |cs|
    modifies components
    ensures Holds(components[..], Cancelled(cs, cp))
  {
    var fp, tp := cp + 2, cp;
    while true
      invariant cp + 2 <= fp <= |cs| && tp == fp - 2
      invariant forall i :: 0 <= i < tp ==> components[i] == Some(Cancelled(cs, cp)[i])
      invariant forall i :: fp <= i < |cs| ==> components[i] == Some(cs[i])
      invariant components[|cs|] == None
      decreases |cs| - fp
    {
      var moved := components[fp];
      components[tp] := moved;
      tp, fp := tp + 1, fp + 1;
      if moved.None? { return; }
    }
  }

  // No pair up to the cursor.
  ghost predicate ClearUpTo(symbolic: string -> bool, cs: Components, cp: int) {
    forall i :: 0 <= i < cp ==> !CancelsAt(symbolic, cs, i)
  }

  lemma {:induction false} AdvanceKeepsFold(symbolic: string -> bool, cs: Components, cp: nat)
    requires cp < |cs| && ClearUpTo(symbolic, cs, cp)
    ensures Fold(symbolic, cs[..cp], cs[cp..]) == Fold(symbolic, cs[..cp + 1], cs[cp + 1..])
  {
    assert cs[cp..] == [cs[cp]] + cs[cp + 1..] && cs[..cp + 1] == cs[..cp] + [cs[cp]];
    assert cp > 0 ==> !CancelsAt(symbolic, cs, cp - 1);
  }

  lemma {:induction false} RemovalKeepsFold(symbolic: string -> bool, cs: Components, cp: nat)
    requires CancelsAt(symbolic, cs, cp) && ClearUpTo(symbolic, cs, cp)
    ensures var ds := Cancelled(cs, cp);
      && ClearUpTo(symbolic, ds, cp - 1)
      && Fold(symbolic, ds[..cp], ds[cp..]) == Fold(symbolic, cs[..cp], cs[cp..])
  {
    var ds := Cancelled(cs, cp);
    assert cs[cp..] == [cs[cp], cs[cp + 1]] + cs[cp + 2..];
    assert ds[..cp] == cs[..cp] && ds[cp..] == cs[cp + 2..];
    forall i | 0 <= i < cp - 1 ensures !CancelsAt(symbolic, ds, i) {
      assert !CancelsAt(symbolic, cs, i);
    }
  }

  /** The cursor loop leaves in the array the one list that no order of removals can reduce. */
  method CancelPairs(symbolic: string -> bool, components: array<Option<string>>, ghost cs: Components)
    requires Holds(components[..], cs)
    modifies components
    ensures Holds(components[..], Reduce(symbolic, cs))
  {
    var cp := 0;
    ghost var now := cs;
    assert cs[..0] == [] && cs[0..] == cs;
    while components[cp].Some?
      invariant Holds(components[..], now) && cp <= |now|
      invariant ClearUpTo(symbolic, now, cp)
      invariant Fold(symbolic, now[..cp], now[cp..]) == Reduce(symbolic, cs)
      decreases 2 * |now| - cp
    {
      var x, y := components[cp].value, components[cp + 1];
      if Ordinary(x) && y == Some("..") && !symbolic(x) {
        assert CancelsAt(symbolic, now, cp);
        RemovalKeepsFold(symbolic, now, cp);
        ShiftDown(components, cp, now);
        now := Cancelled(now, cp);
        if cp != 0 {
          cp := cp - 1;
          AdvanceKeepsFold(symbolic, now, cp);
        }
      } else {
        assert !CancelsAt(symbolic, now, cp);
        AdvanceKeepsFold(symbolic, now, cp);
        cp := cp + 1;
      }
    }
    assert now[..cp] == now && now[cp..] == [];
  }

  lemma {:induction false} JoinAppend(cs: Components, x: string)
    ensures Join(cs + [x]) == if cs == [] then x else Join(cs) + ("/" + x)
  {
    if |cs| <= 1 {
      assert (cs + [x])[1..] == if cs == [] then [] else [x];
    } else {
      assert (cs + [x])[1..] == cs[1..] + [x] && (cs + [x])[0] == cs[0];
      JoinAppend(cs[1..], x);
      assert cs[0] + ("/" + (Join(cs[1..]) + ("/" + x))) == (cs[0] + ("/" + Join(cs[1..]))) + ("/" + x);
    }
  }

  // Concatenates the remaining components behind what newpath already holds.
  method Concatenate(components: array<Option<string>>, lead: string, ghost cs: Components) returns (newpath: string)
    requires Holds(components[..], cs)
    ensures newpath == lead + Join(cs)
  {
    newpath := lead;
    var cp, copied := 0, false;
    assert lead + "" == lead;
    while components[cp].Some?
      invariant cp <= |cs| && copied == (cp > 0)
      invariant newpath == lead + Join(cs[..cp])
      decreases |cs| - cp
    {
      ghost var before := Join(cs[..cp]);
      JoinAppend(cs[..cp], cs[cp]);
      assert cs[..cp + 1] == cs[..cp] + [cs[cp]];
      if copied { newpath := newpath + "/"; }
      copied := true;
      newpath := newpath + components[cp].value;
      assert copied && cp > 0 ==> newpath == (lead + before + "/") + cs[cp] == lead + (before + ("/" + cs[cp]));
      cp := cp + 1;
    }
    assert cs[..cp] == cs;
  }

  /** The whole function: it computes the path whose laws are those of Simplified. */
  method Remove(links: string -> bool, path: string) returns (newpath: string)
    requires !EndsInSlash(path) && |Split(path)| < MAXFILES
    ensures newpath == Simplified(links, path)
  {
    var lead := Lead(path);
    var components := new Option<string>[MAXFILES];
    Slice(path, components);
    CancelPairs(IsSymbolic(links, lead), components, Split(path));
    newpath := Concatenate(components, lead, Reduce(IsSymbolic(links, lead), Split(path)));
  }
}
