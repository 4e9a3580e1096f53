/** C strings, the characters they are made of, and the byte order that strcmp and the inlined
    comparison loops share. */
module Names {

  // How many slots inclist and the array of components of a path have.
  const MAXFILES: nat := 1024

  // A C string: its characters, without the terminating NUL.
  type CString = s: string | '\0' !in s

  datatype Option<+T> = None | Some(value: T)

  // What dereferencing a cursor yields: the terminator once the text is used up.
  function At(s: string, i: nat): (c: char)
    ensures i < |s| ==> c == s[i]
    ensures i >= |s| ==> c == '\0'
  {
    if i < |s| then s[i] else '\0'
  }

  // ---------------------------------------------------------------- characters (C locale)

  predicate IsSpace(c: char) {
    c == ' ' || c == '\t' || c == '\n' || c == 11 as char || c == 12 as char || c == '\r'
  }

  predicate IsDigit(c: char) {
    '0' <= c <= '9'
  }

  // ---------------------------------------------------------------- strings in a buffer

  // The C string that begins at index i of a buffer.
  function StringAt(s: string, i: nat): string
    decreases if i < |s| then |s| - i else 0
  {
    if At(s, i) == '\0' then [] else [s[i]] + StringAt(s, i + 1)
  }

  lemma {:induction false} StringUpTo(s: string, i: nat, j: nat)
    requires i <= j < |s| && s[j] == '\0' && '\0' !in s[i..j]
    ensures StringAt(s, i) == s[i..j]
    decreases j - i
  {
    if i < j {
      assert s[i..j][0] == s[i] && s[i..j][1..] == s[i + 1..j];
      StringUpTo(s, i + 1, j);
    }
  }

  // The length of the first line.
  function LineLength(c: string): (n: nat)
    ensures n <= |c| && (n < |c| ==> c[n] == '\n')
    ensures forall i :: 0 <= i < n ==> c[i] != '\n'
  {
    if c == [] || c[0] == '\n' then 0 else 1 + LineLength(c[1..])
  }

  // ---------------------------------------------------------------- sequences

  predicate Distinct<T(==)>(s: seq<T>) {
    forall i, j :: 0 <= i < j < |s| ==> s[i] != s[j]
  }

  lemma {:induction false} Regroup<T>(a: seq<T>, b: seq<T>, c: seq<T>)
    ensures a + (b + c) == (a + b) + c
  {
  }

  // ---------------------------------------------------------------- the order of strcmp

  // Strict lexicographic order on character codes.
  predicate Below(a: string, b: string) {
    b != [] && (a == [] || a[0] < b[0] || (a[0] == b[0] && Below(a[1..], b[1..])))
  }

  // a has the smaller character at i, where the two differ first.
  predicate SmallerAt(a: string, b: string, i: nat) {
    i < |a| && i < |b| && a[..i] == b[..i] && a[i] < b[i]
  }

  lemma {:induction false} SmallerBehind(c: char, a: string, b: string, i: nat)
    ensures SmallerAt([c] + a, [c] + b, i + 1) <==> SmallerAt(a, b, i)
    ensures !SmallerAt([c] + a, [c] + b, 0)
  {
    var x, y := [c] + a, [c] + b;
    if i < |a| && i < |b| {
      assert x[..i + 1] == [c] + a[..i] && y[..i + 1] == [c] + b[..i];
      assert x[..i + 1][1..] == a[..i] && y[..i + 1][1..] == b[..i];
    }
  }

  lemma {:induction false} PrefixBehind(c: char, a: string, b: string)
    ensures [c] + a < [c] + b <==> a < b
  {
    var x, y := [c] + a, [c] + b;
    if |a| < |b| {
      assert y[..|x|] == [c] + b[..|a|];
      assert x[1..] == a && y[..|x|][1..] == b[..|a|];
    }
  }

  /** One string comes before another exactly if it is a proper prefix of it, or has the smaller character
      where the two differ first. */
  lemma {:induction false} BelowExactlyWhen(a: string, b: string)
    ensures Below(a, b) <==> a < b || exists i: nat :: SmallerAt(a, b, i)
  {
    forall i: nat | SmallerAt(a, b, i) && i > 0 ensures a[0] == b[0] {
      assert a[..i][0] == a[0] && b[..i][0] == b[0];
    }
    assert a != [] && a < b ==> b[..|a|][0] == b[0];
    if a != [] && b != [] && a[0] == b[0] {
      var x, y := a[1..], b[1..];
      assert a == [a[0]] + x && b == [a[0]] + y;
      BelowExactlyWhen(x, y);
      PrefixBehind(a[0], x, y);
      forall i: nat ensures SmallerAt(a, b, i + 1) <==> SmallerAt(x, y, i) { SmallerBehind(a[0], x, y, i); }
      SmallerBehind(a[0], x, y, 0);
      if exists i: nat :: SmallerAt(a, b, i) {
        var i: nat :| SmallerAt(a, b, i);
        assert i > 0;
        assert SmallerAt(a, b, (i - 1) + 1) && SmallerAt(x, y, i - 1);
      }
      if exists i: nat :: SmallerAt(x, y, i) {
        var i: nat :| SmallerAt(x, y, i);
        assert SmallerAt(a, b, i + 1);
      }
    } else if a != [] && b != [] {
      assert a[0] < b[0] ==> SmallerAt(a, b, 0);
    }
  }

  lemma {:induction false} BelowTransitive(a: string, b: string, c: string)
    requires Below(a, b) && Below(b, c)
    ensures Below(a, c)
  {
    if a != [] && a[0] == b[0] && b[0] == c[0] {
      BelowTransitive(a[1..], b[1..], c[1..]);
    }
  }

  lemma {:induction false} BelowIrreflexive(a: string)
    ensures !Below(a, a)
  {
    if a != [] { BelowIrreflexive(a[1..]); }
  }

  lemma {:induction false} BelowAsymmetric(a: string, b: string)
    requires Below(a, b)
    ensures !Below(b, a) && a != b
  {
    BelowIrreflexive(a);
    if Below(b, a) { BelowTransitive(a, b, a); }
  }

  lemma {:induction false} BelowTotal(a: string, b: string)
    ensures Below(a, b) || a == b || Below(b, a)
  {
    if a != [] && b != [] && a[0] == b[0] {
      BelowTotal(a[1..], b[1..]);
      if a[1..] == b[1..] {
        assert a == [a[0]] + a[1..] && b == [b[0]] + b[1..];
      }
    }
  }

  // Dropping a common prefix does not change how two strings compare.
  lemma {:induction false} BelowAfterPrefix(a: string, b: string, k: nat)
    requires k <= |a| && k <= |b| && a[..k] == b[..k]
    ensures Below(a, b) == Below(a[k..], b[k..])
  {
    if k > 0 {
      assert a[0] == a[..k][0] == b[..k][0] == b[0];
      assert a[1..][..k - 1] == a[..k][1..] == b[..k][1..] == b[1..][..k - 1];
      BelowAfterPrefix(a[1..], b[1..], k - 1);
      assert a[1..][k - 1..] == a[k..] && b[1..][k - 1..] == b[k..];
    } else {
      assert a[k..] == a && b[k..] == b;
    }
  }

  datatype Comparison = Less | Equal | Greater

  function Compare(a: string, b: string): Comparison {
    if a == b then Equal else if Below(a, b) then Less else Greater
  }

  /** The comparison loop inlined in define2 and slookup: step both cursors over equal
      characters, stop at a common terminator, then compare the characters under the cursors. */
  method CompareInline(name: CString, other: CString) returns (r: Comparison)
    ensures r == Compare(name, other)
  {
    var i := 0;
    while At(name, i) == At(other, i) && At(name, i) != '\0'
      invariant i <= |name| && i <= |other| && name[..i] == other[..i]
      decreases |name| - i
    {
      assert name[..i + 1] == name[..i] + [name[i]];
      assert other[..i + 1] == other[..i] + [other[i]];
      i := i + 1;
    }
    BelowAfterPrefix(name, other, i);
    if At(name, i) == At(other, i) {
      assert name == name[..i] && other == other[..i];
      r := Equal;
    } else if At(name, i) > At(other, i) {
      assert i == |other| || name[i] > other[i];
      r := Greater;
    } else {
      r := Less;
    }
  }
}
