/** The 8+3 clash check of config/util/checktree.c: the comparison of file names, and the scan of
    neighbours once the names of a directory are sorted by it. */
module CheckTree {
  import opened Names

  // ---------------------------------------------------------------- keys

  // Case does not count, and - counts as _.
  function Folded(c: char): char {
    if 'A' <= c <= 'Z' then (c as int + 32) as char else if c == '-' then '_' else c
  }

  // The first n characters, folded.
  function Key(s: string, n: nat): (k: string)
    ensures |k| <= n && |k| <= |s|
  {
    if n == 0 || s == [] then [] else [Folded(s[0])] + Key(s[1..], n - 1)
  }

  // strrchr(name, '.') + 1
  function Extension(name: string): Option<string> {
    if name == [] then None
    else if Extension(name[1..]).Some? then Extension(name[1..])
    else if name[0] == '.' then Some(name[1..]) else None
  }

  // What DOS keeps of a name: eight characters, and three of the extension if there is one.
  datatype Short = Short(base: string, ext: Option<string>)

  function ShortOf(name: string): Short {
    Short(Key(name, 8), if Extension(name).None? then None else Some(Key(Extension(name).value, 3)))
  }

  // The first n characters of a name or all of them, capitals as small letters and - as _.
  predicate IsFoldedPrefix(k: string, s: string, n: nat) {
    && |k| == (if n < |s| then n else |s|)
    && forall i :: 0 <= i < |k| ==>
         k[i] == if 'A' <= s[i] <= 'Z' then (s[i] as int + 'a' as int - 'A' as int) as char
                 else if s[i] == '-' then '_' else s[i]
  }

  lemma {:induction false} KeyIsFoldedPrefix(s: string, n: nat)
    ensures IsFoldedPrefix(Key(s, n), s, n)
  {
    if n > 0 && s != [] { KeyIsFoldedPrefix(s[1..], n - 1); }
  }

  lemma {:induction false} ExtensionBehindLastDot(stem: string, ext: string)
    requires '.' !in ext
    ensures Extension(ext) == None && Extension(stem + ['.'] + ext) == Some(ext)
  {
    if stem == [] {
      NoDotNoExtension(ext);
      assert stem + ['.'] + ext == ['.'] + ext && (['.'] + ext)[1..] == ext;
    } else {
      ExtensionBehindLastDot(stem[1..], ext);
      assert (stem + ['.'] + ext)[1..] == stem[1..] + ['.'] + ext;
    }
  }

  lemma {:induction false} NoDotNoExtension(name: string)
    requires '.' !in name
    ensures Extension(name) == None
  {
    if name != [] { NoDotNoExtension(name[1..]); }
  }

  /** What is kept of a name are its first eight characters, the dot among them, and the first three
      behind its last dot. */
  lemma {:induction false} ShortNameOf(stem: string, ext: string)
    requires '.' !in ext
    ensures IsFoldedPrefix(ShortOf(ext).base, ext, 8) && ShortOf(ext).ext == None
    ensures var s := ShortOf(stem + ['.'] + ext);
      IsFoldedPrefix(s.base, stem + ['.'] + ext, 8) && s.ext.Some? && IsFoldedPrefix(s.ext.value, ext, 3)
  {
    ExtensionBehindLastDot(stem, ext);
    KeyIsFoldedPrefix(ext, 8);
    KeyIsFoldedPrefix(stem + ['.'] + ext, 8);
    KeyIsFoldedPrefix(ext, 3);
  }

  // The order of the program on short names: no extension comes first.
  ghost predicate Before(a: Short, b: Short) {
    Below(a.base, b.base) || (a.base == b.base && b.ext.Some? && (a.ext.None? || Below(a.ext.value, b.ext.value)))
  }

  // An int that says how a compares to b.
  ghost predicate Says(r: int, a: string, b: string) {
    (r < 0 <==> Below(a, b)) && (r == 0 <==> a == b) && (r > 0 <==> Below(b, a))
  }

  // ---------------------------------------------------------------- the comparison

  lemma {:induction false} KeyStep(s: string, n: nat)
    requires n > 0 && s != []
    ensures Key(s, n) != [] && Key(s, n)[0] == Folded(s[0]) && Key(s, n)[1..] == Key(s[1..], n - 1)
  {
  }

  lemma {:induction false} SamePrefix(cp1: string, cp2: string, i: nat, n: nat, r: int)
    requires i <= n && i <= |cp1| && i <= |cp2| && Key(cp1, i) == Key(cp2, i)
    requires Says(r, Key(cp1[i..], n - i), Key(cp2[i..], n - i))
    ensures Says(r, Key(cp1, n), Key(cp2, n))
    decreases i
  {
    if i == 0 {
      assert cp1[0..] == cp1 && cp2[0..] == cp2;
    } else {
      KeyStep(cp1, i);
      KeyStep(cp2, i);
      KeyStep(cp1, n);
      KeyStep(cp2, n);
      assert cp1[1..][i - 1..] == cp1[i..] && cp2[1..][i - 1..] == cp2[i..];
      SamePrefix(cp1[1..], cp2[1..], i - 1, n - 1, r);
    }
  }

  lemma {:induction false} KeyGrows(s: string, i: nat)
    requires i < |s|
    ensures Key(s, i + 1) == Key(s, i) + [Folded(s[i])]
  {
    if i > 0 { KeyGrows(s[1..], i - 1); }
  }

  /** Strncmp compares the folded prefixes of n characters lexicographically. */
  method Strncmp(cp1: CString, cp2: CString, n: nat) returns (r: int)
    ensures Says(r, Key(cp1, n), Key(cp2, n))
  {
    var i := 0;
    while i < n && i < |cp1| && i < |cp2|
      invariant i <= n && i <= |cp1| && i <= |cp2| && Key(cp1, i) == Key(cp2, i)
      decreases n - i
    {
      if cp1[i] != cp2[i] {
        var c1, c2 := Folded(cp1[i]), Folded(cp2[i]);
        if c1 != c2 {
          r := c1 as int - c2 as int;
          KeyStep(cp1[i..], n - i);
          KeyStep(cp2[i..], n - i);
          SamePrefix(cp1, cp2, i, n, r);
          return;
        }
      }
      KeyGrows(cp1, i);
      KeyGrows(cp2, i);
      i := i + 1;
    }
    // Either n characters have been compared, or one of the names has ended.
    r := if i == n then 0 else At(cp1, i) as int - At(cp2, i) as int;
    assert i < |cp1| ==> cp1[i] in cp1;
    assert i < |cp2| ==> cp2[i] in cp2;
    SamePrefix(cp1, cp2, i, n, r);
  }

  /** fncomp orders names by their short names. */
  method FnComp(n1: CString, n2: CString) returns (r: int)
    ensures Orders(r, ShortOf(n1), ShortOf(n2))
    ensures ShortOf(n1).base == ShortOf(n2).base && '.' !in n1 && '.' in n2 ==> r < 0
  {
    r := Strncmp(n1, n2, 8);
    if r == 0 {
      var cp1, cp2 := Extension(n1), Extension(n2);
      ExtensionIsInside(n1);
      ExtensionIsInside(n2);
      if cp1.Some? || cp2.Some? {
        if cp1.None? { return -1; }
        if cp2.None? { return 1; }
        r := Strncmp(cp1.value, cp2.value, 3);
      }
    }
    BelowIrreflexive(Key(n1, 8));
  }

  ghost predicate Orders(r: int, a: Short, b: Short) {
    (r < 0 <==> Before(a, b)) && (r == 0 <==> a == b) && (r > 0 <==> Before(b, a))
  }

  lemma {:induction false} ExtensionIsInside(name: CString)
    ensures Extension(name).Some? ==> '\0' !in Extension(name).value
    ensures Extension(name).Some? <==> '.' in name
  {
    if name != [] { ExtensionIsInside(name[1..]); }
  }

  // ---------------------------------------------------------------- a total preorder on names

  lemma {:induction false} BeforeTransitive(a: Short, b: Short, c: Short)
    requires Before(a, b) && Before(b, c)
    ensures Before(a, c)
  {
    BelowIrreflexive(a.base);
    if Below(a.base, b.base) && Below(b.base, c.base) { BelowTransitive(a.base, b.base, c.base); }
    if a.base == b.base == c.base && a.ext.Some? && b.ext.Some? && c.ext.Some? {
      BelowTransitive(a.ext.value, b.ext.value, c.ext.value);
    }
  }

  /** Of two short names exactly one comes before the other, or they are the same. */
  lemma {:induction false} BeforeIsTotal(a: Short, b: Short)
    ensures Before(a, b) || a == b || Before(b, a)
    ensures !(Before(a, b) && Before(b, a)) && !Before(a, a)
  {
    BelowTotal(a.base, b.base);
    BelowIrreflexive(a.base);
    if Below(a.base, b.base) { BelowAsymmetric(a.base, b.base); }
    if Below(b.base, a.base) { BelowAsymmetric(b.base, a.base); }
    if a.ext.Some? && b.ext.Some? {
      BelowTotal(a.ext.value, b.ext.value);
      if Below(a.ext.value, b.ext.value) { BelowAsymmetric(a.ext.value, b.ext.value); }
    }
    if a.ext.Some? { BelowIrreflexive(a.ext.value); }
  }

  // ---------------------------------------------------------------- the scan of neighbours

  // What qsort makes of the names: the same ones, none after one that comes before it.
  ghost predicate SortedByShort(names: seq<CString>) {
    forall i, j :: 0 <= i < j < |names| ==> !Before(ShortOf(names[j]), ShortOf(names[i]))
  }

  // The pairs of neighbours with the same short name.
  function Clashes(names: seq<CString>): (r: seq<(CString, CString)>) {
    if |names| < 2 then []
    else (if ShortOf(names[0]) == ShortOf(names[1]) then [(names[0], names[1])] else []) + Clashes(names[1..])
  }

  /** The scan at the end of checkdir. */
  method ReportClashes(names: seq<CString>) returns (reported: seq<(CString, CString)>)
    ensures reported == Clashes(names)
  {
    reported := [];
    var i := 0;
    assert |names| >= 1 ==> names[0..] == names;
    while i < |names| - 1
      invariant 0 <= i && (|names| >= 1 ==> i < |names|)
      invariant i < |names| ==> Clashes(names) == reported + Clashes(names[i..])
      invariant |names| == 0 ==> reported == []
    {
      var c := FnComp(names[i], names[i + 1]);
      assert names[i..][1..] == names[i + 1..];
      if c == 0 { reported := reported + [(names[i], names[i + 1])]; }
      i := i + 1;
    }
  }

  ghost function ShortsOf(names: seq<CString>): set<Short> {
    set n | n in names :: ShortOf(n)
  }

  lemma {:induction false} SortedTail(names: seq<CString>)
    requires SortedByShort(names) && |names| > 1
    ensures SortedByShort(names[1..])
    ensures ShortOf(names[0]) != ShortOf(names[1]) ==> ShortOf(names[0]) !in ShortsOf(names[1..])
    ensures ShortsOf(names) == ShortsOf(names[1..]) + {ShortOf(names[0])}
  {
    assert names == [names[0]] + names[1..];
    if ShortOf(names[0]) != ShortOf(names[1]) && ShortOf(names[0]) in ShortsOf(names[1..]) {
      var j :| 1 <= j < |names| && ShortOf(names[j]) == ShortOf(names[0]);
      BeforeIsTotal(ShortOf(names[0]), ShortOf(names[1]));
    }
  }

  /** After sorting, the number of clashes reported is the number of files too many: names less
      short names. */
  lemma {:induction false} ClashesCountTheExcess(names: seq<CString>)
    requires SortedByShort(names)
    ensures |Clashes(names)| == |names| - |ShortsOf(names)|
    decreases |names|
  {
    if |names| == 0 {
      assert ShortsOf(names) == {};
    } else if |names| == 1 {
      assert ShortsOf(names) == {ShortOf(names[0])};
    } else {
      SortedTail(names);
      ClashesCountTheExcess(names[1..]);
      if ShortOf(names[0]) == ShortOf(names[1]) {
        assert names[1] in names[1..];
        assert ShortsOf(names) == ShortsOf(names[1..]);
      }
    }
  }

  lemma {:induction false} ShortsOfNoClash(names: seq<CString>)
    requires forall i, j :: 0 <= i < j < |names| ==> ShortOf(names[i]) != ShortOf(names[j])
    ensures |ShortsOf(names)| == |names|
  {
    if names == [] {
      assert ShortsOf(names) == {};
    } else {
      var last := |names| - 1;
      ShortsOfNoClash(names[..last]);
      assert names == names[..last] + [names[last]];
      assert ShortsOf(names) == ShortsOf(names[..last]) + {ShortOf(names[last])};
    }
  }

  lemma {:induction false} ClashIsReal(names: seq<CString>, p: (CString, CString))
    requires p in Clashes(names)
    ensures exists i :: 0 <= i < |names| - 1 && p == (names[i], names[i + 1]) && ShortOf(p.0) == ShortOf(p.1)
  {
    if ShortOf(names[0]) == ShortOf(names[1]) && p == (names[0], names[1]) {
    } else {
      ClashIsReal(names[1..], p);
      var i :| 0 <= i < |names[1..]| - 1 && p == (names[1..][i], names[1..][i + 1]) && ShortOf(p.0) == ShortOf(p.1);
      assert names[1..][i] == names[i + 1] && names[1..][i + 1] == names[i + 2];
    }
  }

  /** A clash is reported for a directory if and only if two of its names have the same short name,
      in whatever order the directory lists them; and every pair reported is one. */
  lemma {:induction false} ReportedIffClash(dir: seq<CString>, sorted: seq<CString>)
    requires multiset(sorted) == multiset(dir) && SortedByShort(sorted)
    ensures Clashes(sorted) != [] <==>
      exists i, j :: 0 <= i < j < |dir| && ShortOf(dir[i]) == ShortOf(dir[j])
    ensures forall p :: p in Clashes(sorted) ==> p.0 in dir && p.1 in dir && ShortOf(p.0) == ShortOf(p.1)
  {
    forall p | p in Clashes(sorted) ensures p.0 in dir && p.1 in dir && ShortOf(p.0) == ShortOf(p.1) {
      ClashIsReal(sorted, p);
      assert p.0 in multiset(sorted) && p.1 in multiset(sorted);
    }
    ClashesCountTheExcess(sorted);
    SameShorts(dir, sorted);
    if forall i, j :: 0 <= i < j < |dir| ==> ShortOf(dir[i]) != ShortOf(dir[j]) {
      ShortsOfNoClash(dir);
    } else {
      var i, j :| 0 <= i < j < |dir| && ShortOf(dir[i]) == ShortOf(dir[j]);
      FewerShorts(dir, i, j);
    }
  }

  lemma {:induction false} SameShorts(dir: seq<CString>, sorted: seq<CString>)
    requires multiset(sorted) == multiset(dir)
    ensures ShortsOf(sorted) == ShortsOf(dir) && |sorted| == |dir|
  {
    assert forall n :: n in sorted <==> n in multiset(sorted);
    assert forall n :: n in dir <==> n in multiset(dir);
    assert |multiset(sorted)| == |sorted| && |multiset(dir)| == |dir|;
  }

  lemma {:induction false} AtMostAsManyShorts(names: seq<CString>)
    ensures |ShortsOf(names)| <= |names|
  {
    if names == [] {
      assert ShortsOf(names) == {};
    } else {
      AtMostAsManyShorts(names[1..]);
      assert names == [names[0]] + names[1..];
      assert ShortsOf(names) == ShortsOf(names[1..]) + {ShortOf(names[0])};
    }
  }

  lemma {:induction false} FewerShorts(names: seq<CString>, i: nat, j: nat)
    requires i < j < |names| && ShortOf(names[i]) == ShortOf(names[j])
    ensures |ShortsOf(names)| < |names|
  {
    var rest := names[..j] + names[j + 1..];
    AtMostAsManyShorts(rest);
    assert rest[i] == names[i];
    forall n | n in names ensures exists m :: m in rest && ShortOf(m) == ShortOf(n) {
      var k :| 0 <= k < |names| && names[k] == n;
      if k == j { assert rest[i] in rest; } else { assert rest[if k < j then k else k - 1] == n; }
    }
    assert ShortsOf(names) == ShortsOf(rest);
  }
}
