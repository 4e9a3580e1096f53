/** getnextline (config/makedepend/main.c:552-616) on its buffer: one pointer walks through the file
    text, blanks comments and continuations in place and ends the returned lines with a NUL. */
module LineScanner {
  import opened Names
  import opened CleanText

  // What a pointer at p has before it in a text that ends in a NUL.
  function Ahead(o: string, p: nat): (t: string)
  {
    if p < |o| then o[p..|o| - 1] else []
  }

  // Walk on the buffer: the text that follows is what is in front of the pointer.
  function WalkAt(o: string, p: nat, comment: bool, line: string, n: nat): (r: Stop)
    decreases |o| - p
  {
    if p + 1 >= |o| then if Hash(line) then Found(line, [], n) else Exhausted(n)
    else if comment then
      if o[p] == '*' && o[p + 1] == '/' && p + 2 < |o| then WalkAt(o, p + 2, false, line + "  ", n)
      else WalkAt(o, p + 1, true, line + " ", n + if o[p] == '\n' then 1 else 0)
    else if o[p] == '/' && o[p + 1] == '*' && p + 2 < |o| then WalkAt(o, p + 2, true, line + "  ", n)
    else if o[p] == '\\' && o[p + 1] == '\n' && p + 2 < |o| then WalkAt(o, p + 2, false, line + "  ", n + 1)
    else if o[p] != '\n' then WalkAt(o, p + 1, false, line + [o[p]], n)
    else if !Hash(line) then WalkAt(o, p + 1, false, [], n + 1)
    else if !Bare(line) then Found(line, Ahead(o, p + 1), n + 1)
    else if p + 2 == |o| then Overrun
    else WalkAt(o, p + 2, false, [], n + 1)
  }

  lemma {:induction false} AheadSteps(o: string, p: nat)
    ensures var t := Ahead(o, p);
      && (t == [] <==> p + 1 >= |o|)
      && (t != [] ==> t[0] == o[p] && t[1..] == Ahead(o, p + 1))
      && (|t| >= 2 <==> p + 2 < |o|)
      && (|t| >= 2 ==> t[1] == o[p + 1] && t[2..] == Ahead(o, p + 2))
  {
  }

  lemma {:induction false} WalkAtIsWalk(o: string, p: nat, comment: bool, line: string, n: nat)
    ensures WalkAt(o, p, comment, line, n) == Walk(Ahead(o, p), comment, line, n)
    decreases |o| - p
  {
    AheadSteps(o, p);
    if p + 1 < |o| {
      if comment {
        if o[p] == '*' && o[p + 1] == '/' && p + 2 < |o| { WalkAtIsWalk(o, p + 2, false, line + "  ", n); }
        else { WalkAtIsWalk(o, p + 1, true, line + " ", n + if o[p] == '\n' then 1 else 0); }
      } else if o[p] == '/' && o[p + 1] == '*' && p + 2 < |o| {
        WalkAtIsWalk(o, p + 2, true, line + "  ", n);
      } else if o[p] == '\\' && o[p + 1] == '\n' && p + 2 < |o| {
        WalkAtIsWalk(o, p + 2, false, line + "  ", n + 1);
      } else if o[p] != '\n' {
        WalkAtIsWalk(o, p + 1, false, line + [o[p]], n);
      } else if !Hash(line) {
        WalkAtIsWalk(o, p + 1, false, [], n + 1);
      } else if Bare(line) && p + 2 < |o| {
        WalkAtIsWalk(o, p + 2, false, [], n + 1);
      }
    }
  }

  function Blanks(n: nat): (b: string)
    ensures |b| == n && forall i :: 0 <= i < n ==> b[i] == ' '
  {
    seq(n, _ => ' ')
  }

  // From p inside a comment: where the pointer is left, on the last character of the comment or at
  // the end, and the lines counted until then.
  function InsideComment(o: string, p: nat, n: nat): (r: (nat, nat))
    ensures p <= r.0 && (p < |o| ==> r.0 < |o|)
    decreases |o| - p
  {
    if p + 1 >= |o| then (p, n)
    else if o[p] == '*' && o[p + 1] == '/' && p + 2 < |o| then (p + 1, n)
    else InsideComment(o, p + 1, n + if o[p] == '\n' then 1 else 0)
  }

  // The end of what has been blanked when the pointer is left at p.
  function Behind(o: string, p: nat): (q: nat)
    ensures q <= p + 1
  {
    if p + 1 < |o| then p + 1 else p
  }

  lemma {:induction false} WalkInsideComment(o: string, p: nat, line: string, n: nat, r: Stop)
    requires p < |o| && r == WalkAt(o, p, true, line, n)
    ensures p <= Behind(o, InsideComment(o, p, n).0)
    ensures var (s, m) := InsideComment(o, p, n);
      r == WalkAt(o, s + 1, false, line + Blanks(Behind(o, s) - p), m)
    decreases |o| - p
  {
    if p + 1 == |o| {
      assert line + Blanks(0) == line;
    } else {
      if o[p] == '*' && o[p + 1] == '/' && p + 2 < |o| {
        assert Blanks(2) == "  ";
      } else {
        WalkInsideComment(o, p + 1, line + " ", n + if o[p] == '\n' then 1 else 0, r);
        MoreBlanks(line, " ", Behind(o, InsideComment(o, p, n).0) - p - 1);
      }
    }
  }

  lemma {:induction false} SameInside(b: string, o: string, p: nat, n: nat)
    requires |b| == |o| && forall i :: p <= i < |o| ==> b[i] == o[i]
    ensures InsideComment(b, p, n) == InsideComment(o, p, n)
    decreases |o| - p
  {
    if p + 1 < |o| { SameInside(b, o, p + 1, n + if o[p] == '\n' then 1 else 0); }
  }

  lemma {:induction false} MoreBlanks(line: string, more: string, n: nat)
    requires forall i :: 0 <= i < |more| ==> more[i] == ' '
    ensures (line + more) + Blanks(n) == line + Blanks(|more| + n)
  {
  }

  lemma {:induction false} WalkComment(o: string, p: nat, line: string, n: nat, r: Stop)
    requires p + 2 < |o| && o[p] == '/' && o[p + 1] == '*' && r == WalkAt(o, p, false, line, n)
    ensures p + 2 <= Behind(o, InsideComment(o, p + 2, n).0)
    ensures var (s, m) := InsideComment(o, p + 2, n);
      r == WalkAt(o, s + 1, false, line + Blanks(Behind(o, s) - p), m)
  {
    WalkInsideComment(o, p + 2, line + "  ", n, r);
    MoreBlanks(line, "  ", Behind(o, InsideComment(o, p + 2, n).0) - p - 2);
  }

  // The buffer b was o. Now the line that begins at bol has become line up to p, nothing has
  // changed behind p, and nothing in front of start.
  ghost predicate Written(b: string, o: string, start: nat, bol: nat, p: nat, line: string) {
    && |b| == |o| && start <= bol && bol + |line| == p < |o|
    && (forall i :: 0 <= i < start || p <= i < |o| ==> b[i] == o[i])
    && (forall i :: 0 <= i < |line| ==> b[bol + i] == line[i])
    && '\0' !in line
  }

  // The buffer b' is b but for the blanks from p up to q.
  ghost predicate Blanked(b: string, b': string, p: nat, q: nat) {
    |b| == |b'| && p <= q <= |b| && forall i :: 0 <= i < |b| ==> b'[i] == if p <= i < q then ' ' else b[i]
  }

  class FilePointer {
    const f_base: array<char>
    var f_p: nat
    var f_line: nat

    // The text of a file and the NUL behind it.
    constructor (text: string)
      requires '\0' !in text
      ensures Valid() && Unread() == text && f_line == 0 && fresh(f_base)
    {
      f_base := new char[|text| + 1](i requires 0 <= i => if i < |text| then text[i] else '\0');
      f_p, f_line := 0, 0;
      new;
      assert f_base[..|text|] == text;
    }

    ghost predicate Valid()
      reads this, f_base
    {
      && f_base.Length > 0 && f_base[f_base.Length - 1] == '\0'
      && forall i :: f_p <= i < f_base.Length - 1 ==> f_base[i] != '\0'
    }

    ghost function Unread(): string
      reads this, f_base
    {
      Ahead(f_base[..], f_p)
    }

    // Blanks the comment that opens at from.
    method BlankComment(from: nat, lineno: nat) returns (p: nat, lineno': nat)
      requires from + 2 < f_base.Length && f_base[from] == '/' && f_base[from + 1] == '*'
      requires forall i :: from <= i < f_base.Length ==> (f_base[i] == '\0' <==> i == f_base.Length - 1)
      modifies f_base
      ensures (p, lineno') == InsideComment(old(f_base[..]), from + 2, lineno)
      ensures Blanked(old(f_base[..]), f_base[..], from, Behind(old(f_base[..]), p))
    {
      ghost var o := f_base[..];
      f_base[from], f_base[from + 1] := ' ', ' ';
      p, lineno' := from + 2, lineno;
      while f_base[p] != '\0'
        invariant from + 2 <= p < |o|
        invariant forall i :: 0 <= i < |o| ==> f_base[i] == if from <= i < p then ' ' else o[i]
        invariant InsideComment(o, p, lineno') == InsideComment(o, from + 2, lineno)
        decreases |o| - p
      {
        if f_base[p] == '*' && f_base[p + 1] == '/' {
          f_base[p], f_base[p + 1] := ' ', ' ';
          p := p + 1;
          return;
        }
        if f_base[p] == '\n' { lineno' := lineno' + 1; }
        f_base[p] := ' ';
        p := p + 1;
      }
    }

    // The pointer is left on the last character of the comment, or on the NUL if it is not closed.
    method PassComment(from: nat, lineno: nat, ghost o: string, ghost start: nat, ghost bol: nat, ghost line: string,
                       ghost r: Stop)
      returns (p: nat, lineno': nat)
      requires from + 2 < |o| && Written(f_base[..], o, start, bol, from, line)
      requires forall i :: from <= i < |o| ==> (o[i] == '\0' <==> i == |o| - 1)
      requires o[from] == '/' && o[from + 1] == '*' && r == WalkAt(o, from, false, line, lineno)
      modifies f_base
      ensures from < p < |o|
      ensures Written(f_base[..], o, start, bol, Behind(o, p), line + Blanks(Behind(o, p) - from))
      ensures r == WalkAt(o, p + 1, false, line + Blanks(Behind(o, p) - from), lineno')
    {
      ghost var b := f_base[..];
      WalkComment(o, from, line, lineno, r);
      p, lineno' := BlankComment(from, lineno);
      SameInside(b, o, from + 2, lineno);
    }

    // A character of code, or a continuation, over whose two blanks the pointer passes at once.
    method PassCode(from: nat, lineno: nat, ghost o: string, ghost start: nat, ghost bol: nat, ghost line: string,
                    ghost r: Stop)
      returns (p: nat, lineno': nat, ghost line': string)
      requires from + 1 < |o| && Written(f_base[..], o, start, bol, from, line)
      requires forall i :: from <= i < |o| ==> (o[i] == '\0' <==> i == |o| - 1)
      requires o[from] != '\n' && !(o[from] == '/' && o[from + 1] == '*')
      requires r == WalkAt(o, from, false, line, lineno)
      modifies f_base
      ensures from <= p && p + 1 < |o| && Written(f_base[..], o, start, bol, p + 1, line')
      ensures r == WalkAt(o, p + 1, false, line', lineno')
    {
      if f_base[from] == '\\' && f_base[from + 1] == '\n' {
        ghost var b := f_base[..];
        f_base[from], f_base[from + 1] := ' ', ' ';
        assert Blanks(2) == "  ";
        return from + 1, lineno + 1, line + "  ";
      }
      p, lineno', line' := from, lineno, line + [o[from]];
    }

    // Ends the line at p with a NUL and tells whether it is bare.
    method EndLine(bol: nat, p: nat, ghost line: string) returns (bare: bool)
      requires bol < p == bol + |line| < f_base.Length && line[0] == '#' && '\0' !in line
      requires forall i :: 0 <= i < |line| ==> f_base[bol + i] == line[i]
      modifies f_base
      ensures bare == Bare(line) && StringAt(f_base[..], bol) == line
      ensures forall i :: 0 <= i < f_base.Length && i != p ==> f_base[i] == old(f_base[i])
    {
      f_base[p] := '\0';
      assert f_base[bol..p] == line;
      StringUpTo(f_base[..], bol, p);
      var cp := bol + 1;
      while f_base[cp] != '\0' && (f_base[cp] == ' ' || f_base[cp] == '\t')
        invariant bol < cp <= p
        invariant forall i :: bol < i < cp ==> f_base[i] == ' ' || f_base[i] == '\t'
        decreases p - cp
      {
        cp := cp + 1;
      }
      bare := f_base[cp] == '\0';
      assert cp < p ==> f_base[cp] == line[cp - bol] && line[cp - bol] in line;
    }

    // A newline: the line is found, or the next one begins behind the pointer.
    method PassNewline(from: nat, lineno: nat, bol: nat, ghost o: string, ghost start: nat, ghost line: string,
                       ghost r: Stop)
      returns (found: bool, p: nat, bol': nat)
      requires from + 1 < |o| && Written(f_base[..], o, start, bol, from, line) && o[from] == '\n'
      requires r == WalkAt(o, from, false, line, lineno) && !r.Overrun?
      modifies f_base
      ensures if found then
          && p == from + 1 && StringAt(f_base[..], bol) == line
          && (forall i :: 0 <= i < |o| && !(start <= i < p) ==> f_base[i] == o[i])
          && r == Found(line, Ahead(o, p), lineno + 1)
        else
          && from <= p && bol' == p + 1 < |o| && Written(f_base[..], o, start, bol', bol', [])
          && r == WalkAt(o, bol', false, [], lineno + 1)
    {
      found, p := false, from;
      if f_base[bol] == '#' {
        var bare := EndLine(bol, from, line);
        found, p := !bare, from + 1;
      }
      bol' := p + 1;
    }

    // One turn of the loop: the line is found, or the walk goes on behind p.
    method Turn(from: nat, lineno: nat, bol: nat, ghost o: string, ghost start: nat, ghost line: string,
                ghost r: Stop)
      returns (found: bool, p: nat, bol': nat, lineno': nat, ghost line': string)
      requires from + 1 < |o| && Written(f_base[..], o, start, bol, from, line)
      requires forall i :: from <= i < |o| ==> (o[i] == '\0' <==> i == |o| - 1)
      requires r == WalkAt(o, from, false, line, lineno) && !r.Overrun?
      modifies f_base
      ensures from < p <= |o|
      ensures found ==> r == Found(line, Ahead(o, p), lineno')
      ensures !found ==> r == WalkAt(o, p, false, line', lineno')
      ensures if found then
          && p < |o| && bol' == bol && StringAt(f_base[..], bol) == line
          && forall i :: 0 <= i < |o| && !(start <= i < p) ==> f_base[i] == o[i]
        else Written(f_base[..], o, start, bol', if p < |o| then p else |o| - 1, line')
    {
      found, bol', line' := false, bol, line;
      if f_base[from] == '/' && f_base[from + 1] == '*' {
        p, lineno' := PassComment(from, lineno, o, start, bol, line, r);
        line' := line + Blanks(Behind(o, p) - from);
      } else if f_base[from] == '\n' {
        var next;
        found, p, next := PassNewline(from, lineno, bol, o, start, line, r);
        lineno' := lineno + 1;
        if found { return; }
        bol', line' := next, [];
      } else {
        p, lineno', line' := PassCode(from, lineno, o, start, bol, line, r);
      }
      p := p + 1;
    }

    // The loop: it stops behind the line found, or at the end of the text inside a last line.
    method Scan(from: nat, passed: nat, ghost o: string, ghost r: Stop)
      returns (found: bool, p: nat, bol: nat, lineno: nat, ghost line: string)
      requires from + 1 < |o| && f_base[..] == o
      requires forall i :: from <= i < |o| ==> (o[i] == '\0' <==> i == |o| - 1)
      requires r == WalkAt(o, from, false, [], passed) && !r.Overrun?
      modifies f_base
      ensures from < p <= |o| && bol < |o| && (found ==> p < |o|)
      ensures forall i :: 0 <= i < |o| && !(from <= i < p) ==> f_base[i] == o[i]
      ensures r == if found then Found(line, Ahead(o, p), lineno)
        else if Hash(line) then Found(line, [], lineno) else Exhausted(lineno)
      ensures if found then StringAt(f_base[..], bol) == line
        else |o| - 1 <= p && Written(f_base[..], o, from, bol, |o| - 1, line)
    {
      found, p, bol, lineno, line := false, from, from, passed, [];
      while p < f_base.Length - 1
        invariant from <= p <= |o| && bol < |o|
        invariant Written(f_base[..], o, from, bol, if p < |o| then p else |o| - 1, line)
        invariant r == WalkAt(o, p, false, line, lineno)
        decreases |o| - p
      {
        ghost var text := line;
        found, p, bol, lineno, line := Turn(p, lineno, bol, o, from, line, r);
        if found {
          line := text;
          return;
        }
      }
    }

    /** One call does what Walk says: it returns the line found as a C string in the buffer and
        leaves the text behind it, or NULL when there is none; the line counter goes with it. */
    method GetNextLine() returns (line: Option<nat>)
      requires Valid() && !Walk(Unread(), false, [], f_line).Overrun?
      modifies this`f_p, this`f_line, f_base
      ensures Valid() && f_p >= old(f_p)
      ensures match Walk(old(Unread()), false, [], old(f_line))
        case Found(text, rest, n) =>
          line.Some? && StringAt(f_base[..], line.value) == text && Unread() == rest && f_line == n
        case Exhausted(n) => line == None && Unread() == [] && f_line == n
        case Overrun => false
      ensures forall i :: 0 <= i < f_base.Length && !(old(f_p) <= i < f_p) ==> f_base[i] == old(f_base[i])
    {
      var eof := f_base.Length - 1;
      if f_p >= eof { return None; }
      ghost var o := f_base[..];
      WalkAtIsWalk(o, f_p, false, [], f_line);
      var found, p, bol, lineno, text := Scan(f_p, f_line, o, Walk(Unread(), false, [], f_line));
      f_p, f_line := p, lineno;
      assert found ==> Ahead(f_base[..], p) == Ahead(o, p);
      if found { return Some(bol); }
      if f_base[bol] != '#' { return None; }
      assert f_base[bol..eof] == text;
      StringUpTo(f_base[..], bol, eof);
      return Some(bol);
    }

    /** One call as its callers see it: the first of the lines of the text, and the text without it.
        Without bare lines the counter and the newlines still to come keep their sum. */
    method ReadLine() returns (line: Option<string>)
      requires Valid() && Steady(Unread())
      modifies this`f_p, this`f_line, f_base
      ensures Valid() && Steady(Unread())
      ensures match line
        case None => Scanned(old(Unread())) == [] && Unread() == []
        case Some(l) => Scanned(old(Unread())) == [l] + Scanned(Unread()) && |Unread()| < |old(Unread())|
      ensures NoBare(Clean(old(Unread()))) ==>
        NoBare(Clean(Unread())) && f_line + Newlines(Unread()) == old(f_line) + Newlines(old(Unread()))
    {
      CallFrom(Unread(), f_line);
      var bol := GetNextLine();
      assert Steady([]) && Newlines([]) == 0 && NoBare(Clean([]));
      line := if bol == None then None else Some(StringAt(f_base[..], bol.value));
    }

    /** Calling until NULL yields the lines of Scanned. For a text without bare lines they are the
        lines of the cleaned text that begin with #, and in the end the counter has grown by the
        newlines of the text. */
    method ReadAll() returns (lines: seq<string>)
      requires Valid() && Steady(Unread())
      modifies this`f_p, this`f_line, f_base
      ensures Valid() && Unread() == [] && lines == Scanned(old(Unread()))
      ensures NoBare(Clean(old(Unread()))) ==>
        lines == HashLines(Clean(old(Unread()))) && f_line == old(f_line) + Newlines(old(Unread()))
    {
      ghost var text := Unread();
      ghost var all, nobare, total := Scanned(text), NoBare(Clean(text)), f_line + Newlines(text);
      if nobare { ScannedAreTheHashLines(text); }
      lines := [];
      while true
        invariant Valid() && Steady(Unread()) && all == lines + Scanned(Unread())
        invariant nobare ==> NoBare(Clean(Unread())) && f_line + Newlines(Unread()) == total
        decreases |Unread()|
      {
        var line := ReadLine();
        if line == None { return; }
        Regroup(lines, [line.value], Scanned(Unread()));
        lines := lines + [line.value];
      }
    }
  }

  // A call that starts with the counter at n.
  lemma {:induction false} CallFrom(t: string, n: nat)
    requires Steady(t)
    ensures var r := Walk(t, false, [], n);
      && SameBut(Call(t), r) && !r.Overrun?
      && (r.Found? ==> Steady(r.rest) && Scanned(t) == [r.line] + Scanned(r.rest))
      && (r.Exhausted? ==> Scanned(t) == [])
      && (NoBare(Clean(t)) ==> Finds(Clean(t), n + Newlines(t), r))
  {
    CounterIsIndependent(t, false, [], 0, n);
    if NoBare(Clean(t)) {
      assert [] + Clean(t) == Clean(t);
      WalkFinds(t, false, [], n, Clean(t), Walk(t, false, [], n));
    }
  }
}
