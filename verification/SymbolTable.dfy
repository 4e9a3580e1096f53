/** The per-file symbol tables of config/makedepend/parse.c: a sorted array of pointers to
    entries, searched by bisection, grown in steps of SYMTABINC and merged by reallocation. */
module SymbolTable {
  import opened Names

  const SYMTABINC: nat := 10

  // Merging copies pointers, so one entry may sit in the tables of several files.
  class Symtab {
    const s_name: CString
    var s_value: string

    constructor (name: CString, val: string)
      ensures s_name == name && s_value == val
    {
      s_name := name;
      s_value := val;
    }
  }

  // ---------------------------------------------------------------- tables as sequences

  ghost predicate Sorted(es: seq<Symtab>) {
    forall i, j :: 0 <= i < j < |es| ==> Below(es[i].s_name, es[j].s_name)
  }

  ghost function NamesOf(es: seq<Symtab>): set<CString> {
    set e: Symtab | e in es :: e.s_name
  }

  ghost function IndexOf(es: seq<Symtab>, name: CString): (k: nat)
    requires name in NamesOf(es)
    ensures k < |es| && es[k].s_name == name
  {
    var e :| e in es && e.s_name == name;
    var k :| 0 <= k < |es| && es[k] == e;
    k
  }

  lemma {:induction false} SortedIndexUnique(es: seq<Symtab>, k: nat)
    requires Sorted(es) && k < |es|
    ensures es[k].s_name in NamesOf(es) && IndexOf(es, es[k].s_name) == k
  {
    assert es[k] in es;
    var i := IndexOf(es, es[k].s_name);
    BelowIrreflexive(es[k].s_name);
  }

  // A name compared with the entry in the middle is thereby compared with half the table.
  lemma {:induction false} HalfTable(es: seq<Symtab>, mid: nat, name: CString)
    requires Sorted(es) && mid < |es|
    ensures Below(es[mid].s_name, name) ==> forall j :: 0 <= j <= mid ==> Below(es[j].s_name, name)
    ensures Below(name, es[mid].s_name) ==> forall j :: mid <= j < |es| ==> Below(name, es[j].s_name)
  {
    forall j | 0 <= j < mid && Below(es[mid].s_name, name) ensures Below(es[j].s_name, name) {
      BelowTransitive(es[j].s_name, es[mid].s_name, name);
    }
    forall j | mid < j < |es| && Below(name, es[mid].s_name) ensures Below(name, es[j].s_name) {
      BelowTransitive(name, es[mid].s_name, es[j].s_name);
    }
  }

  lemma {:induction false} SeparatedIsAbsent(es: seq<Symtab>, k: nat, name: CString)
    requires k <= |es|
    requires forall j :: 0 <= j < k ==> Below(es[j].s_name, name)
    requires forall j :: k <= j < |es| ==> Below(name, es[j].s_name)
    ensures name !in NamesOf(es)
  {
    BelowIrreflexive(name);
  }

  ghost function InsertAt(es: seq<Symtab>, k: nat, e: Symtab): seq<Symtab>
    requires k <= |es|
  {
    es[..k] + [e] + es[k..]
  }

  ghost function RemoveAt(es: seq<Symtab>, k: nat): seq<Symtab>
    requires k < |es|
  {
    es[..k] + es[k + 1..]
  }

  lemma {:induction false} InsertKeepsSorted(es: seq<Symtab>, k: nat, e: Symtab)
    requires Sorted(es) && k <= |es|
    requires forall j :: 0 <= j < k ==> Below(es[j].s_name, e.s_name)
    requires forall j :: k <= j < |es| ==> Below(e.s_name, es[j].s_name)
    ensures Sorted(InsertAt(es, k, e))
    ensures NamesOf(InsertAt(es, k, e)) == NamesOf(es) + {e.s_name}
  {
    var r := InsertAt(es, k, e);
    assert r[k] == e;
    forall j | 0 <= j < |es| ensures es[j] in r {
      assert es[j] == r[if j < k then j else j + 1];
    }
  }

  lemma {:induction false} RemoveKeepsSorted(es: seq<Symtab>, k: nat)
    requires Sorted(es) && k < |es|
    ensures Sorted(RemoveAt(es, k))
    ensures NamesOf(RemoveAt(es, k)) == NamesOf(es) - {es[k].s_name}
  {
    var r := RemoveAt(es, k);
    forall j | 0 <= j < |es| && j != k ensures es[j] in r && es[j].s_name != es[k].s_name {
      assert es[j] == r[if j < k then j else j - 1];
      BelowIrreflexive(es[k].s_name);
    }
    assert forall e :: e in r ==> e in es;
  }

  // Both tables walked in step; on equal names the entry of the second table wins.
  ghost function Merged(a: seq<Symtab>, b: seq<Symtab>): seq<Symtab> {
    if a == [] then b
    else if b == [] then a
    else if Below(a[0].s_name, b[0].s_name) then [a[0]] + Merged(a[1..], b)
    else if Below(b[0].s_name, a[0].s_name) then [b[0]] + Merged(a, b[1..])
    else [b[0]] + Merged(a[1..], b[1..])
  }

  lemma {:induction false} MergedHead(a: seq<Symtab>, b: seq<Symtab>, i: nat, j: nat)
    requires i < |a| && j < |b|
    ensures Merged(a[i..], b[j..]) ==
      if Below(a[i].s_name, b[j].s_name) then [a[i]] + Merged(a[i + 1..], b[j..])
      else if Below(b[j].s_name, a[i].s_name) then [b[j]] + Merged(a[i..], b[j + 1..])
      else [b[j]] + Merged(a[i + 1..], b[j + 1..])
  {
    assert a[i..][1..] == a[i + 1..] && b[j..][1..] == b[j + 1..];
  }

  // From k on, goal is still to be merged from what is left of a and b.
  ghost predicate ToMerge(a: seq<Symtab>, b: seq<Symtab>, goal: seq<Symtab>, i: nat, j: nat, k: nat) {
    i <= |a| && j <= |b| && k <= |goal| && goal[k..] == Merged(a[i..], b[j..])
  }

  lemma {:induction false} MergeStep(a: seq<Symtab>, b: seq<Symtab>, goal: seq<Symtab>, i: nat, j: nat, k: nat)
    requires i < |a| && j < |b| && ToMerge(a, b, goal, i, j, k)
    ensures k < |goal|
    ensures match Compare(a[i].s_name, b[j].s_name)
      case Less => goal[k] == a[i] && ToMerge(a, b, goal, i + 1, j, k + 1)
      case Greater => goal[k] == b[j] && ToMerge(a, b, goal, i, j + 1, k + 1)
      case Equal => goal[k] == b[j] && ToMerge(a, b, goal, i + 1, j + 1, k + 1)
  {
    MergedHead(a, b, i, j);
    BelowTotal(a[i].s_name, b[j].s_name);
    BelowIrreflexive(a[i].s_name);
    if Below(a[i].s_name, b[j].s_name) {
      DropHead(goal, k, a[i], Merged(a[i + 1..], b[j..]));
    } else if Below(b[j].s_name, a[i].s_name) {
      DropHead(goal, k, b[j], Merged(a[i..], b[j + 1..]));
    } else {
      DropHead(goal, k, b[j], Merged(a[i + 1..], b[j + 1..]));
    }
  }

  lemma {:induction false} DropHead<T>(s: seq<T>, k: nat, x: T, rest: seq<T>)
    requires k <= |s| && s[k..] == [x] + rest
    ensures k < |s| && s[k] == x && s[k + 1..] == rest
  {
    assert |s[k..]| > 0 && s[k] == s[k..][0];
    assert s[k + 1..] == s[k..][1..];
  }

  lemma {:induction false} MergedElements(a: seq<Symtab>, b: seq<Symtab>, e: Symtab)
    ensures e in Merged(a, b) ==> e in a || e in b
    ensures e in b ==> e in Merged(a, b)
  {
    if a != [] && b != [] {
      assert a == [a[0]] + a[1..] && b == [b[0]] + b[1..];
      if Below(a[0].s_name, b[0].s_name) {
        MergedElements(a[1..], b, e);
      } else if Below(b[0].s_name, a[0].s_name) {
        MergedElements(a, b[1..], e);
      } else {
        MergedElements(a[1..], b[1..], e);
      }
    }
  }

  lemma {:induction false} PrependSorted(e: Symtab, es: seq<Symtab>)
    requires Sorted(es)
    requires forall x :: x in es ==> Below(e.s_name, x.s_name)
    ensures Sorted([e] + es)
  {
  }

  // Every entry of both tables lies above a name that lies below both heads.
  lemma {:induction false} HeadBelowRest(name: CString, a: seq<Symtab>, b: seq<Symtab>)
    requires Sorted(a) && Sorted(b)
    requires a != [] ==> Below(name, a[0].s_name)
    requires b != [] ==> Below(name, b[0].s_name)
    ensures forall e :: e in Merged(a, b) ==> Below(name, e.s_name)
  {
    forall e | e in Merged(a, b) ensures Below(name, e.s_name) {
      MergedElements(a, b, e);
      if e in a && e != a[0] {
        assert a == [a[0]] + a[1..];
        BelowTransitive(name, a[0].s_name, e.s_name);
      } else if e in b && e != b[0] {
        assert b == [b[0]] + b[1..];
        BelowTransitive(name, b[0].s_name, e.s_name);
      }
    }
  }

  lemma {:induction false} MergedSorted(a: seq<Symtab>, b: seq<Symtab>)
    requires Sorted(a) && Sorted(b)
    ensures Sorted(Merged(a, b))
    ensures |Merged(a, b)| <= |a| + |b|
  {
    if a != [] && b != [] {
      var x, y := a[0].s_name, b[0].s_name;
      if Below(x, y) {
        MergedSorted(a[1..], b);
        HeadBelowRest(x, a[1..], b);
        PrependSorted(a[0], Merged(a[1..], b));
      } else if Below(y, x) {
        MergedSorted(a, b[1..]);
        HeadBelowRest(y, a, b[1..]);
        PrependSorted(b[0], Merged(a, b[1..]));
      } else {
        BelowTotal(x, y);
        MergedSorted(a[1..], b[1..]);
        HeadBelowRest(y, a[1..], b[1..]);
        PrependSorted(b[0], Merged(a[1..], b[1..]));
      }
    }
  }

  // No name is lost.
  lemma {:induction false} MergedKeepsName(a: seq<Symtab>, b: seq<Symtab>, name: CString)
    ensures name in NamesOf(a) || name in NamesOf(b) ==> name in NamesOf(Merged(a, b))
  {
    if a != [] && b != [] {
      var x, y := a[0].s_name, b[0].s_name;
      assert a == [a[0]] + a[1..] && b == [b[0]] + b[1..];
      if Below(x, y) {
        MergedKeepsName(a[1..], b, name);
        assert name in NamesOf(a) ==> name == x || name in NamesOf(a[1..]);
      } else if Below(y, x) {
        MergedKeepsName(a, b[1..], name);
        assert name in NamesOf(b) ==> name == y || name in NamesOf(b[1..]);
      } else {
        BelowTotal(x, y);
        MergedKeepsName(a[1..], b[1..], name);
        assert name in NamesOf(a) ==> name == x || name in NamesOf(a[1..]);
        assert name in NamesOf(b) ==> name == y || name in NamesOf(b[1..]);
      }
    }
  }

  /** Merging is set union on names and right-biased on entries. */
  lemma {:induction false} MergeIsRightBiasedUnion(a: seq<Symtab>, b: seq<Symtab>)
    requires Sorted(a) && Sorted(b)
    ensures Sorted(Merged(a, b))
    ensures NamesOf(Merged(a, b)) == NamesOf(a) + NamesOf(b)
    ensures forall name :: name in NamesOf(Merged(a, b)) ==>
      Merged(a, b)[IndexOf(Merged(a, b), name)] ==
        if name in NamesOf(b) then b[IndexOf(b, name)] else a[IndexOf(a, name)]
  {
    var m := Merged(a, b);
    MergedSorted(a, b);
    forall name: CString ensures name in NamesOf(m) <==> name in NamesOf(a) || name in NamesOf(b) {
      MergedKeepsName(a, b, name);
      if name in NamesOf(m) {
        var e := m[IndexOf(m, name)];
        MergedElements(a, b, e);
      }
    }
    forall name | name in NamesOf(m)
      ensures m[IndexOf(m, name)] == if name in NamesOf(b) then b[IndexOf(b, name)] else a[IndexOf(a, name)]
    {
      var e := m[IndexOf(m, name)];
      MergedElements(a, b, e);
      if name in NamesOf(b) {
        var f := b[IndexOf(b, name)];
        MergedElements(a, b, f);
        var k :| 0 <= k < |m| && m[k] == f;
        SortedIndexUnique(m, k);
      } else {
        var k :| 0 <= k < |a| && a[k] == e;
        SortedIndexUnique(a, k);
      }
    }
  }

  // Inserting an entry at its slot is merging with a table of that entry alone.
  lemma {:induction false} InsertIsMerged(es: seq<Symtab>, k: nat, e: Symtab)
    requires k <= |es|
    requires forall j :: 0 <= j < k ==> Below(es[j].s_name, e.s_name)
    requires forall j :: k <= j < |es| ==> Below(e.s_name, es[j].s_name)
    ensures InsertAt(es, k, e) == Merged(es, [e])
  {
    if es != [] {
      if k == 0 {
        BelowAsymmetric(e.s_name, es[0].s_name);
        assert [e][1..] == [];
      } else {
        InsertIsMerged(es[1..], k - 1, e);
        assert InsertAt(es, k, e) == [es[0]] + InsertAt(es[1..], k - 1, e);
      }
    }
  }

  ghost function MapOf(es: seq<Symtab>): map<CString, string>
    reads es
  {
    map name | name in NamesOf(es) :: es[IndexOf(es, name)].s_value
  }

  // Inserting a new entry updates the map at its name alone.
  lemma {:induction false} MapAfterInsert(es: seq<Symtab>, k: nat, e: Symtab)
    requires Sorted(es) && k <= |es| && e.s_name !in NamesOf(es)
    requires Sorted(InsertAt(es, k, e)) && NamesOf(InsertAt(es, k, e)) == NamesOf(es) + {e.s_name}
    ensures MapOf(InsertAt(es, k, e)) == MapOf(es)[e.s_name := e.s_value]
  {
    var r := InsertAt(es, k, e);
    assert r[k] == e;
    SortedIndexUnique(r, k);
    forall n | n in NamesOf(es) ensures MapOf(r)[n] == MapOf(es)[n] {
      var i := IndexOf(es, n);
      var j := if i < k then i else i + 1;
      assert r[j] == es[i];
      SortedIndexUnique(r, j);
    }
  }

  lemma {:induction false} InsertUpdates(es: seq<Symtab>, k: nat, e: Symtab)
    requires Sorted(es) && k <= |es|
    requires forall j :: 0 <= j < k ==> Below(es[j].s_name, e.s_name)
    requires forall j :: k <= j < |es| ==> Below(e.s_name, es[j].s_name)
    ensures e.s_name !in NamesOf(es) && Sorted(InsertAt(es, k, e)) && InsertAt(es, k, e)[k] == e
    ensures MapOf(InsertAt(es, k, e)) == MapOf(es)[e.s_name := e.s_value]
  {
    SeparatedIsAbsent(es, k, e.s_name);
    InsertKeepsSorted(es, k, e);
    MapAfterInsert(es, k, e);
  }

  /** As maps, merging is right-biased union. The merged table shares the second table's entries,
      so this holds of the values at any later time too, whatever define2 has done to them. */
  lemma {:induction false} MergedMap(a: seq<Symtab>, b: seq<Symtab>)
    requires Sorted(a) && Sorted(b)
    ensures MapOf(Merged(a, b)) == MapOf(a) + MapOf(b)
  {
    MergeIsRightBiasedUnion(a, b);
  }

  lemma {:induction false} MapAfterRemove(es: seq<Symtab>, k: nat)
    requires Sorted(es) && k < |es|
    ensures MapOf(RemoveAt(es, k)) == MapOf(es) - {es[k].s_name}
  {
    var r := RemoveAt(es, k);
    RemoveKeepsSorted(es, k);
    forall n | n in NamesOf(r) ensures MapOf(r)[n] == MapOf(es)[n] {
      var i := IndexOf(es, n);
      assert i != k;
      var j := if i < k then i else i - 1;
      assert r[j] == es[i];
      SortedIndexUnique(r, j);
    }
  }

  // ---------------------------------------------------------------- the C representation

  // The allocation always covers the entry count rounded up to a multiple of SYMTABINC.
  function RoundedUp(n: nat): (m: nat)
    ensures n <= m < n + 10 && m % 10 == 0
  {
    n + (SYMTABINC - n % SYMTABINC) % SYMTABINC
  }

  lemma {:induction false} RoundedUpMonotone(m: nat, n: nat)
    requires m <= n
    ensures RoundedUp(m) <= RoundedUp(n)
  {
    var p, q := RoundedUp(m), RoundedUp(n);
    assert p == SYMTABINC * (p / SYMTABINC) && q == SYMTABINC * (q / SYMTABINC);
  }

  lemma {:induction false} RoomForOneMore(n: nat)
    ensures RoundedUp(n + 1) == if n % SYMTABINC == 0 then n + SYMTABINC else RoundedUp(n)
    ensures n % SYMTABINC == 0 ==> RoundedUp(n) == n
  {
    var q := n / SYMTABINC;
    assert n == SYMTABINC * q + n % SYMTABINC;
    assert RoundedUp(n + 1) == SYMTABINC * (RoundedUp(n + 1) / SYMTABINC);
    assert RoundedUp(n) == SYMTABINC * (RoundedUp(n) / SYMTABINC);
  }

  // The gap-opening loop of define2: everything from dest upwards moves one slot to the right.
  method ShiftUp(a: array<Symtab?>, n: nat, dest: nat) returns (sp: nat)
    requires n < a.Length
    modifies a
    ensures sp == if dest < n then dest else n
    ensures forall k :: 0 <= k < sp ==> a[k] == old(a[k])
    ensures forall k :: sp < k <= n ==> a[k] == old(a[k - 1])
  {
    sp := n;
    while sp > dest
      invariant sp <= n && (dest <= n ==> dest <= sp) && (dest > n ==> sp == n)
      invariant forall k :: 0 <= k <= sp && k < n ==> a[k] == old(a[k])
      invariant forall k :: sp < k <= n ==> a[k] == old(a[k - 1])
    {
      a[sp] := a[sp - 1];
      sp := sp - 1;
    }
  }

  class IncList {
    var i_defs: array?<Symtab?>
    var i_ndefs: nat
    // the entries in use, i_defs[..i_ndefs]
    ghost var defs: seq<Symtab>

    var i_list: seq<IncList>
    var i_merged: seq<bool>

    // i_flags, one field a bit
    var defchecked: bool
    var marked: bool
    var finished: bool

    constructor ()
      ensures Valid() && defs == [] && i_list == [] && i_merged == [] && !defchecked && !marked && !finished
      ensures i_defs == null
    {
      i_defs, i_ndefs, defs := null, 0, [];
      i_list, i_merged := [], [];
      defchecked, marked, finished := false, false, false;
    }

    ghost predicate Valid()
      reads this, i_defs
    {
      && |defs| == i_ndefs
      && (i_defs == null ==> i_ndefs == 0)
      && (i_defs != null ==>
            && RoundedUp(i_ndefs) <= i_defs.Length
            && forall k :: 0 <= k < i_ndefs ==> i_defs[k] == defs[k])
      && Sorted(defs)
    }

    // The finite map from names to values that the table stands for.
    ghost function Map(): map<CString, string>
      reads this, defs
    {
      MapOf(defs)
    }

    /** slookup: bisection over the sorted table. */
    method SLookup(symbol: CString) returns (at: Option<nat>)
      requires Valid()
      ensures at.Some? ==> at.value < i_ndefs && defs[at.value].s_name == symbol
      ensures at.None? ==> symbol !in NamesOf(defs)
    {
      var first, last := 0, i_ndefs - 1;
      while last >= first
        invariant 0 <= first <= last + 1 <= i_ndefs
        invariant forall j :: 0 <= j < first ==> Below(defs[j].s_name, symbol)
        invariant forall j :: last < j < i_ndefs ==> Below(symbol, defs[j].s_name)
      {
        var middle := (first + last) / 2;
        var c := CompareInline(symbol, i_defs[middle].s_name);
        BelowTotal(symbol, defs[middle].s_name);
        HalfTable(defs, middle, symbol);
        match c {
          case Equal => return Some(middle);
          case Greater => first := middle + 1;
          case Less => last := middle - 1;
        }
      }
      SeparatedIsAbsent(defs, first, symbol);
      at := None;
    }

    // The allocation at the head of define2: first block, or another SYMTABINC slots.
    method MakeRoom()
      requires Valid()
      modifies this`i_defs
      ensures Valid() && i_defs != null && RoundedUp(i_ndefs + 1) <= i_defs.Length
      ensures i_defs == old(i_defs) || fresh(i_defs)
    {
      RoomForOneMore(i_ndefs);
      if i_defs == null {
        i_defs := new Symtab?[SYMTABINC](_ => null);
      } else if i_ndefs % SYMTABINC == 0 {
        var grown := new Symtab?[i_ndefs + SYMTABINC](_ => null);
        forall k | 0 <= k < i_ndefs { grown[k] := i_defs[k]; }
        i_defs := grown;
      }
    }

    // The search of define2: like slookup, but it also tracks the slot below which to insert.
    method SearchSlot(name: CString) returns (found: Option<nat>, below: int, ghost slot: nat)
      requires Valid()
      ensures found.Some? ==> found.value < i_ndefs && defs[found.value].s_name == name
      ensures found.None? ==>
        && slot <= i_ndefs
        && (forall j :: 0 <= j < slot ==> Below(defs[j].s_name, name))
        && (forall j :: slot <= j < i_ndefs ==> Below(name, defs[j].s_name))
        && (below + 1 == slot || (i_ndefs == 0 && below == 0))
    {
      var first, last := 0, i_ndefs - 1;
      found, below := None, 0;
      while last >= first
        invariant 0 <= first <= last + 1 <= i_ndefs
        invariant forall j :: 0 <= j < first ==> Below(defs[j].s_name, name)
        invariant forall j :: last < j < i_ndefs ==> Below(name, defs[j].s_name)
        invariant first > last ==> below + 1 == first || (i_ndefs == 0 && below == 0)
      {
        var middle := (first + last) / 2;
        var c := CompareInline(name, i_defs[middle].s_name);
        BelowTotal(name, defs[middle].s_name);
        HalfTable(defs, middle, name);
        match c {
          case Equal =>
            found, slot := Some(middle), 0;
            return;
          case Greater =>
            below := first;
            first := middle + 1;
          case Less =>
            last := middle - 1;
            below := last;
        }
      }
      slot := first;
    }

    // define2 on a name already present: the shared entry itself takes the new value.
    method ReplaceValue(at: nat, val: string)
      requires Valid() && at < i_ndefs
      modifies defs[at]
      ensures Valid()
      ensures Map() == old(Map())[defs[at].s_name := val]
    {
      i_defs[at].s_value := val;
      SortedIndexUnique(defs, at);
      forall n | n in NamesOf(defs) && n != defs[at].s_name ensures Map()[n] == old(Map())[n] {
        assert defs[IndexOf(defs, n)].s_name == n;
      }
    }

    // define2 on a new name: move the entries above the slot up by one and store there.
    method InsertBelow(below: int, name: CString, val: string, ghost slot: nat)
      requires Valid() && i_defs != null && RoundedUp(i_ndefs + 1) <= i_defs.Length
      requires slot <= i_ndefs
      requires forall j :: 0 <= j < slot ==> Below(defs[j].s_name, name)
      requires forall j :: slot <= j < i_ndefs ==> Below(name, defs[j].s_name)
      requires below + 1 == slot || (i_ndefs == 0 && below == 0)
      modifies this`i_ndefs, this`defs, i_defs
      ensures Valid() && name !in NamesOf(old(defs))
      ensures slot <= old(|defs|) < |defs| && fresh(defs[slot]) && defs == InsertAt(old(defs), slot, defs[slot])
      ensures defs[slot].s_name == name
      ensures Map() == old(Map())[name := val]
    {
      ghost var es, before := defs, Map();
      var stab := new Symtab(name, val);
      assert MapOf(es) == before;
      InsertUpdates(es, slot, stab);
      ghost var after := MapOf(InsertAt(es, slot, stab));
      StoreBelow(below, stab, slot);
      assert Map() == after;
    }

    // The place of every entry after an insertion.
    static lemma {:induction false} InsertedAt(es: seq<Symtab>, k: nat, e: Symtab)
      requires k <= |es|
      ensures |InsertAt(es, k, e)| == |es| + 1
      ensures forall j :: 0 <= j <= |es| ==>
        InsertAt(es, k, e)[j] == if j < k then es[j] else if j == k then e else es[j - 1]
    {
    }

    method StoreBelow(below: int, stab: Symtab, ghost slot: nat)
      requires Valid() && i_defs != null && RoundedUp(i_ndefs + 1) <= i_defs.Length
      requires slot <= i_ndefs && Sorted(InsertAt(defs, slot, stab))
      requires below + 1 == slot || (i_ndefs == 0 && below == 0)
      modifies this`i_ndefs, this`defs, i_defs
      ensures Valid() && defs == InsertAt(old(defs), slot, stab)
    {
      ghost var es := defs;
      var sp := ShiftUp(i_defs, i_ndefs, below + 1);
      assert sp == slot;
      i_defs[sp] := stab;
      i_ndefs := i_ndefs + 1;
      defs := InsertAt(es, slot, stab);
      InsertedAt(es, slot, stab);
    }

    /** define2: replace the value of an existing entry, or open a gap and insert a new one. */
    method Define2(name: CString, val: string)
      requires Valid()
      modifies this`i_defs, this`i_ndefs, this`defs, i_defs
      modifies set e: Symtab | e in defs && e.s_name == name
      ensures Valid()
      ensures i_defs == old(i_defs) || fresh(i_defs)
      ensures name in NamesOf(old(defs)) ==> defs == old(defs)
      ensures name !in NamesOf(old(defs)) ==>
        exists k: nat :: k < |defs| && k <= |old(defs)| && fresh(defs[k]) && defs == InsertAt(old(defs), k, defs[k])
          && defs[k].s_name == name
      ensures Map() == old(Map())[name := val]
    {
      ghost var before := MapOf(defs);
      MakeRoom();
      assert Map() == before;
      var found, below, slot := SearchSlot(name);
      if found.Some? {
        assert defs[found.value] in defs;
        ReplaceValue(found.value, val);
      } else {
        InsertBelow(below, name, val, slot);
      }
    }

    /** merge2defines(this, other): a fresh array holding both tables, other's entries winning. */
    method Merge2Defines(other: IncList)
      requires Valid() && other.Valid()
      modifies this`i_defs, this`i_ndefs, this`defs
      ensures Valid()
      ensures i_defs == null || fresh(i_defs)
      ensures defs == Merged(old(defs), old(other.defs))
      ensures Map() == old(Map()) + old(other.Map())
    {
      ghost var a, b, m, n := defs, other.defs, Map(), other.Map();
      Reallocate(other);
      assert MapOf(a) == m && MapOf(b) == n;
      MergedMap(a, b);
    }

    method Reallocate(other: IncList)
      requires Valid() && other.Valid()
      modifies this`i_defs, this`i_ndefs, this`defs
      ensures Valid()
      ensures i_defs == null || fresh(i_defs)
      ensures defs == Merged(old(defs), old(other.defs))
    {
      ghost var goal := Merged(defs, other.defs);
      var deflen := i_ndefs + other.i_ndefs;
      MergedSorted(defs, other.defs);
      RoundedUpMonotone(|goal|, deflen);
      if deflen > 0 {
        deflen := deflen + (SYMTABINC - deflen % SYMTABINC) % SYMTABINC;
      }
      var out := new Symtab?[deflen](_ => null);
      var first := MergeInto(other, out);
      i_defs := if deflen > 0 then out else null;
      i_ndefs := first;
      defs := goal;
    }

    // The loops of merge2defines: both tables in step, then whatever is left of either.
    method MergeInto(other: IncList, out: array<Symtab?>) returns (first: nat)
      requires Valid() && other.Valid() && i_defs != out && other.i_defs != out
      requires |Merged(defs, other.defs)| <= out.Length
      modifies out
      ensures first == |Merged(defs, other.defs)|
      ensures forall k :: 0 <= k < first ==> out[k] == Merged(defs, other.defs)[k]
    {
      ghost var goal := Merged(defs, other.defs);
      var first1, first2;
      first1, first2, first := MergeInStep(other, out, goal);
      first := CopyTail(out, goal, first1, first, other.defs[first2..]);
      first := other.CopyTail(out, goal, first2, first, []);
    }

    // Both tables in step, until one of them is used up.
    method MergeInStep(other: IncList, out: array<Symtab?>, ghost goal: seq<Symtab>)
      returns (first1: nat, first2: nat, first: nat)
      requires Valid() && other.Valid() && i_defs != out && other.i_defs != out
      requires goal == Merged(defs, other.defs) && |goal| <= out.Length
      modifies out
      ensures first1 <= |defs| && first2 <= |other.defs| && first <= |goal|
      ensures forall k :: 0 <= k < first ==> out[k] == goal[k]
      ensures goal[first..] == defs[first1..] + other.defs[first2..]
    {
      var last1, last2 := i_ndefs - 1, other.i_ndefs - 1;
      first1, first2, first := 0, 0, 0;
      while last1 >= first1 && last2 >= first2
        invariant first <= |goal| && ToMerge(defs, other.defs, goal, first1, first2, first)
        invariant forall k :: 0 <= k < first ==> out[k] == goal[k]
      {
        var from;
        from, first1, first2 := TakeNext(other, goal, first1, first2, first);
        out[first] := from;
        first := first + 1;
      }
    }

    // The entry that goes next, and what is then left of the two tables.
    method TakeNext(other: IncList, ghost goal: seq<Symtab>, first1: nat, first2: nat, ghost first: nat)
      returns (from: Symtab?, next1: nat, next2: nat)
      requires Valid() && other.Valid() && ToMerge(defs, other.defs, goal, first1, first2, first)
      requires first1 < |defs| && first2 < |other.defs|
      ensures first < |goal| && from == goal[first] && ToMerge(defs, other.defs, goal, next1, next2, first + 1)
      ensures first1 <= next1 && first2 <= next2 && first1 + first2 < next1 + next2
    {
      var from1, from2 := i_defs[first1], other.i_defs[first2];
      var c := Compare(from1.s_name, from2.s_name);
      MergeStep(defs, other.defs, goal, first1, first2, first);
      match c {
        case Less => return from1, first1 + 1, first2;
        case Greater => return from2, first1, first2 + 1;
        case Equal => return from2, first1 + 1, first2 + 1;
      }
    }

    method CopyTail(out: array<Symtab?>, ghost goal: seq<Symtab>, from: nat, at: nat, ghost rest: seq<Symtab>)
      returns (first: nat)
      requires Valid() && i_defs != out && from <= |defs| && at <= |goal| <= out.Length
      requires goal[at..] == defs[from..] + rest
      requires forall k :: 0 <= k < at ==> out[k] == goal[k]
      modifies out
      ensures first <= |goal| && goal[first..] == rest
      ensures forall k :: 0 <= k < first ==> out[k] == goal[k]
    {
      var next := from;
      first := at;
      while i_ndefs - 1 >= next
        invariant from <= next <= |defs| && first <= |goal|
        invariant goal[first..] == defs[next..] + rest
        invariant forall k :: 0 <= k < first ==> out[k] == goal[k]
      {
        out[first] := i_defs[next];
        assert defs[next..] == [defs[next]] + defs[next + 1..];
        DropHead(goal, first, defs[next], defs[next + 1..] + rest);
        first, next := first + 1, next + 1;
      }
    }

    /** The deletion at the bottom of undefine: one count less, later entries moved down. */
    method DeleteAt(at: nat)
      requires Valid() && at < i_ndefs
      modifies this`i_ndefs, this`defs, i_defs
      ensures Valid()
      ensures defs == RemoveAt(old(defs), at)
      ensures Map() == old(Map()) - {old(defs[at]).s_name}
    {
      ghost var es, before := defs, Map();
      CloseGap(at);
      assert MapOf(es) == before;
      MapAfterRemove(es, at);
    }

    method CloseGap(at: nat)
      requires Valid() && at < i_ndefs
      modifies this`i_ndefs, this`defs, i_defs
      ensures Valid()
      ensures defs == RemoveAt(old(defs), at)
    {
      ghost var es := defs;
      i_ndefs := i_ndefs - 1;
      RoundedUpMonotone(i_ndefs, i_ndefs + 1);
      var ptr := at;
      while ptr < i_ndefs
        invariant at <= ptr <= i_ndefs
        invariant forall k :: 0 <= k < ptr ==> i_defs[k] == RemoveAt(es, at)[k]
        invariant forall k :: ptr <= k < |es| ==> i_defs[k] == es[k]
        modifies i_defs
      {
        i_defs[ptr] := i_defs[ptr + 1];
        ptr := ptr + 1;
      }
      defs := RemoveAt(es, at);
      RemoveKeepsSorted(es, at);
    }
  }
}
