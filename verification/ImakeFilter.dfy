/** The loops of config/imake/imake.c behind ImakeComments and ImakeLines: CleanCppInput, isempty,
    ReadLine on its slurped buffer, and CleanCppOutput. */
module ImakeFilter {
  import opened Names
  import opened ImakeComments
  import opened ImakeLines

  // ---------------------------------------------------------------- the input

  // The two loops that delimit the token behind a #.
  method DelimitToken(text: string, from: nat) returns (ptoken: nat, pend: nat)
    requires from <= |text|
    ensures from <= ptoken <= pend <= |text| && text[ptoken..pend] == Token(SkipBlanks(text[from..]))
    ensures ptoken > from <==> from < |text| && IsBlank(text[from])
  {
    ptoken := from;
    while IsBlank(At(text, ptoken))
      invariant from <= ptoken <= |text|
      invariant SkipBlanks(text[ptoken..]) == SkipBlanks(text[from..])
      invariant ptoken > from ==> from < |text| && IsBlank(text[from])
      decreases |text| - ptoken
    {
      assert ptoken < |text| && text[ptoken..][1..] == text[ptoken + 1..];
      ptoken := ptoken + 1;
    }
    ghost var at := text[ptoken..];
    assert ptoken < |text| ==> at[0] == text[ptoken];
    pend := ptoken;
    while pend < |text| && !IsBlank(text[pend]) && text[pend] != '\n'
      invariant ptoken <= pend <= |text| && |Token(at)| == pend - ptoken + |Token(text[pend..])|
    {
      assert text[pend..][1..] == text[pend + 1..];
      pend := pend + 1;
    }
    assert pend < |text| ==> text[pend..][0] == text[pend];
    TokenIsPrefix(at);
    assert text[ptoken..pend] == at[..pend - ptoken];
  }

  lemma {:induction false} TokenIsPrefix(t: string)
    ensures Token(t) == t[..|Token(t)|]
  {
    if t != [] && !IsBlank(t[0]) && t[0] != '\n' {
      TokenIsPrefix(t[1..]);
    }
  }

  // pbuf[-1] and pbuf[-2]: the buffer begins with two newlines that are not of the text.
  function Before(text: string, i: int): char
    requires i < |text|
  {
    if i < 0 then '\n' else text[i]
  }

  // Up to pbuf the output is what has been written and the text since punwritten.
  ghost predicate Written(text: string, written: string, punwritten: nat, pbuf: nat) {
    && punwritten <= pbuf <= |text|
    && CleanedInput(text) ==
         (written + text[punwritten..pbuf]) + Rewritten(Before(text, pbuf - 2), Before(text, pbuf - 1), text[pbuf..])
  }

  lemma {:induction false} PassOver(text: string, written: string, punwritten: nat, pbuf: nat)
    requires Written(text, written, punwritten, pbuf) && pbuf < |text|
    requires !(text[pbuf] == '#' && Before(text, pbuf - 1) == '\n' && Before(text, pbuf - 2) != '\\'
               && IsComment(text[pbuf + 1..]))
    ensures Written(text, written, punwritten, pbuf + 1)
  {
    var done, rest := written + text[punwritten..pbuf], text[pbuf..];
    assert rest[0] == text[pbuf] && rest[1..] == text[pbuf + 1..];
    Regroup(done, [text[pbuf]], Rewritten(Before(text, pbuf - 1), text[pbuf], rest[1..]));
    assert text[punwritten..pbuf + 1] == text[punwritten..pbuf] + [text[pbuf]];
    Regroup(written, text[punwritten..pbuf], [text[pbuf]]);
  }

  lemma {:induction false} Hide(text: string, written: string, punwritten: nat, pbuf: nat)
    requires Written(text, written, punwritten, pbuf) && pbuf < |text|
    requires text[pbuf] == '#' && Before(text, pbuf - 1) == '\n' && Before(text, pbuf - 2) != '\\'
    requires IsComment(text[pbuf + 1..])
    ensures Written(text, (written + text[punwritten..pbuf]) + Hidden(text[pbuf + 1..]), pbuf + 1, pbuf + 1)
  {
    var done, rest := written + text[punwritten..pbuf], text[pbuf..];
    assert rest[0] == text[pbuf] && rest[1..] == text[pbuf + 1..];
    var hidden := Hidden(rest[1..]);
    Regroup(done, hidden, Rewritten(Before(text, pbuf - 1), text[pbuf], rest[1..]));
    assert (done + hidden) + text[pbuf + 1..pbuf + 1] == done + hidden;
  }

  /** CleanCppInput: the text to give to cpp, or None when the Imakefile can be given as it is. */
  method CleanCppInput(text: string) returns (out: Option<string>)
    ensures CleanedInput(text) == if out.Some? then out.value else text
  {
    var written, rewritten := "", false;
    var punwritten, pbuf := 0, 0;
    assert "" + text[0..0] == "" && text[0..] == text && "" + CleanedInput(text) == CleanedInput(text);
    while pbuf < |text|
      invariant Written(text, written, punwritten, pbuf)
      invariant !rewritten ==> written == "" && punwritten == 0
    {
      var comment := false;
      if text[pbuf] == '#' && Before(text, pbuf - 1) == '\n' && Before(text, pbuf - 2) != '\\' {
        var ptoken, pend := DelimitToken(text, pbuf + 1);
        comment := !IsDirective(text[ptoken..pend]);
        if comment {
          Hide(text, written, punwritten, pbuf);
          rewritten := true;
          written := (written + text[punwritten..pbuf]) + if ptoken > pbuf + 1 then "XCOMM" else "XCOMM ";
          punwritten := pbuf + 1;
        }
      }
      if !comment { PassOver(text, written, punwritten, pbuf); }
      pbuf := pbuf + 1;
    }
    var last := written + text[punwritten..pbuf];
    assert text[pbuf..] == [] && last + "" == last;
    out := if rewritten then Some(last) else None;
    assert !rewritten ==> last == text;
  }

  // ---------------------------------------------------------------- a line of the output

  method SkipDigitsFrom(line: string, from: nat) returns (pend: nat)
    requires from <= |line|
    ensures from <= pend <= |line| && line[pend..] == SkipDigits(line[from..])
  {
    pend := from;
    while IsDigit(At(line, pend))
      invariant from <= pend <= |line| && SkipDigits(line[pend..]) == SkipDigits(line[from..])
      decreases |line| - pend
    {
      assert pend < |line| && line[pend..][1..] == line[pend + 1..];
      pend := pend + 1;
    }
    assert pend < |line| ==> line[pend..][0] == line[pend];
  }

  // A prefix passed over by moving on in the line.
  lemma {:induction false} PassPrefix(line: string, from: nat, p: string)
    requires from <= |line|
    ensures AfterPrefix(line[from..], p) ==
      if from + |p| <= |line| && line[from..from + |p|] == p then line[from + |p|..] else line[from..]
  {
    if from + |p| <= |line| {
      assert line[from..][..|p|] == line[from..from + |p|];
      assert line[from..][|p|..] == line[from + |p|..];
    }
  }

  // The test for line markers.
  method TestCookie(line: string) returns (cookie: bool)
    requires line != [] && line[0] == '#'
    ensures cookie == IsCookie(line)
  {
    var pend := 1;
    if At(line, pend) == ' ' { pend := pend + 1; }
    ghost var s := AfterPrefix(line[1..], " ");
    assert line[pend..] == s by {
      if |line| > 1 {
        assert line[1..2] == [line[1]];
        PassPrefix(line, 1, " ");
      }
    }
    PassPrefix(line, pend, "line ");
    if pend + 5 <= |line| && line[pend..pend + 5] == "line " { pend := pend + 5; }
    assert line[pend..] == AfterPrefix(s, "line ");
    assert pend < |line| ==> line[pend..][0] == line[pend];
    if !IsDigit(At(line, pend)) { return false; }
    var behind := SkipDigitsFrom(line, pend);
    ghost var r := line[behind..];
    assert behind < |line| ==> r[0] == line[behind];
    assert behind + 1 < |line| ==> r[1] == line[behind + 1];
    cookie := behind == |line| || line[behind] == '\n' || (line[behind] == ' ' && At(line, behind + 1) == '"');
  }

  // The loop that turns XCOMM into #; strcpy moves the rest of the line up.
  method TurnTokens(line: string) returns (turned: string)
    ensures turned == Uncomment(line, true)
  {
    turned := line;
    var pend := 0;
    assert line[0..] == line && [] + Uncomment(line, true) == Uncomment(line, true);
    while pend < |turned|
      invariant pend <= |turned|
      invariant Uncomment(line, true) ==
        turned[..pend] + Uncomment(turned[pend..], pend == 0 || IsBlank(turned[pend - 1]))
      decreases |turned| - pend
    {
      ghost var done, rest, boundary := turned[..pend], turned[pend..], pend == 0 || IsBlank(turned[pend - 1]);
      if TokenAt(turned[pend..]) && (pend == 0 || IsBlank(turned[pend - 1])) {
        Regroup(done, "#", Uncomment(rest[5..], false));
        turned := turned[..pend] + "#" + turned[pend + 5..];
        assert turned[..pend + 1] == done + "#" && turned[pend + 1..] == rest[5..];
      } else {
        Regroup(done, [rest[0]], Uncomment(rest[1..], IsBlank(rest[0])));
        assert turned[..pend + 1] == done + [rest[0]] && turned[pend + 1..] == rest[1..];
      }
      pend := pend + 1;
    }
    assert turned[..pend] == turned && turned[pend..] == [] && turned + [] == turned;
  }

  // The loop that cuts blanks off the end.
  method TrimEnd(line: string) returns (trimmed: string)
    ensures trimmed == Trim(line)
  {
    var pend := |line|;
    assert line[..pend] == line;
    while pend > 0 && IsBlank(line[pend - 1])
      invariant 0 <= pend <= |line| && Trim(line[..pend]) == Trim(line)
    {
      assert line[..pend][..pend - 1] == line[..pend - 1];
      pend := pend - 1;
    }
    trimmed := line[..pend];
  }

  /** isempty: whether the line is to be dropped, and what has become of it. */
  method IsEmpty(line: string) returns (empty: bool, rest: string)
    ensures (empty, rest) == Emptied(line)
  {
    if line != [] && line[0] == '#' {
      var cookie := TestCookie(line);
      if cookie { return true, line; }
      rest := TrimEnd(line);
    } else {
      var turned := TurnTokens(line);
      rest := TrimEnd(turned);
    }
    empty := rest == [];
  }

  // ---------------------------------------------------------------- the slurped buffer

  class Slurped {
    const buf: array<char>
    var pline: nat

    // Reads it all, and a NUL behind it.
    constructor (text: string)
      requires '\0' !in text
      ensures Valid() && Unread() == text && fresh(buf)
    {
      buf := new char[|text| + 1](i requires 0 <= i => if i < |text| then text[i] else '\0');
      pline := 0;
      new;
      assert buf[..|text|] == text;
    }

    ghost predicate Valid()
      reads this, buf
    {
      && buf.Length > 0 && pline < buf.Length && buf[buf.Length - 1] == '\0'
      && forall i :: pline <= i < buf.Length - 1 ==> buf[i] != '\0'
    }

    ghost function Unread(): string
      requires Valid()
      reads this, buf
    {
      buf[pline..buf.Length - 1]
    }

    // The loop of ReadLine.
    method FindEnd() returns (p1: nat)
      requires Valid()
      ensures pline <= p1 < buf.Length && p1 - pline == LineEnd(Unread(), 0)
    {
      ghost var t := Unread();
      p1 := pline;
      while p1 < buf.Length - 1 && !Breaks(p1)
        invariant pline <= p1 < buf.Length && LineEnd(t, p1 - pline) == LineEnd(t, 0)
        decreases buf.Length - p1
      {
        p1 := p1 + 1;
      }
    }

    // Ends the line at p1 with a NUL and moves on behind its end.
    method EndLine(p1: nat)
      requires Valid() && pline <= p1 < buf.Length && p1 - pline == LineEnd(Unread(), 0) && Unread() != []
      modifies this`pline, buf
      ensures Valid()
      ensures First(old(Unread())).text == StringAt(buf[..], old(pline)) && Unread() == Remainder(old(Unread()))
    {
      ghost var t, e := Unread(), p1 - pline;
      assert forall i :: pline <= i < buf.Length - 1 ==> t[i - pline] == buf[i];
      var next := p1;
      if p1 < buf.Length - 1 {
        next := if buf[p1] == '\n' then p1 + 1 else p1 + 2;
        buf[p1] := '\0';
      }
      assert buf[pline..p1] == t[..e] && '\0' !in t[..e];
      StringUpTo(buf[..], pline, p1);
      pline := next;
      assert buf[pline..buf.Length - 1] == t[e + |Separator(t, e)|..];
    }

    /** ReadLine: the first line of what is unread, as a C string in the buffer, or NULL. */
    method ReadLine() returns (line: Option<nat>, ghost end: string)
      requires Valid()
      modifies this`pline, buf
      ensures Valid() && (line.Some? ==> |Unread()| < |old(Unread())|)
      ensures match line
        case None => old(Unread()) == [] && Unread() == []
        case Some(p2) =>
          LinesOf(old(Unread())) == [Line(StringAt(buf[..], p2), end)] + LinesOf(Unread())
    {
      var p1 := FindEnd();
      if pline == buf.Length - 1 { return None, ""; }
      line, end := Some(pline), First(Unread()).end;
      EndLine(p1);
    }

    // The test at p1 within the line that begins at pline.
    predicate Breaks(p1: nat)
      requires Valid() && pline <= p1 < buf.Length - 1
      reads this, buf
      ensures Breaks(p1) == EndsAt(Unread(), p1 - pline)
    {
      assert forall i :: pline <= i < buf.Length - 1 ==> Unread()[i - pline] == buf[i];
      (buf[p1] == '@' && buf[p1 + 1] == '@'
        && !(p1 != pline && !IsSpace(buf[p1 - 1]) && p1 + 2 < buf.Length && buf[p1 + 2] == '/'))
      || buf[p1] == '\n'
    }

    /** CleanCppOutput: everything it writes behind the heading. */
    method CleanCppOutput() returns (out: string)
      requires Valid()
      modifies this`pline, buf
      ensures Valid() && Unread() == [] && out == CleanedOutput(old(Unread()))
    {
      ghost var text := Unread();
      out := "";
      var blankline := false;
      assert "" + CleanedOutput(text) == CleanedOutput(text);
      while true
        invariant Valid()
        invariant CleanedOutput(text) == out + Unlines(Cleaned(LinesOf(Unread()), blankline))
        decreases |Unread()|
      {
        ghost var before, done := LinesOf(Unread()), out;
        var line, end := ReadLine();
        if line.None? {
          assert LinesOf([]) == [] && out + "" == out;
          return;
        }
        ghost var rest := LinesOf(Unread());
        var text' := StringAt(buf[..], line.value);
        assert before == [Line(text', end)] + rest && before[1..] == rest;
        var empty, input := IsEmpty(text');
        WriteOne(before, blankline, out, rest);
        if empty {
          if !blankline { out := out + "\n"; }
        } else {
          out := out + input + "\n";
        }
        blankline := empty;
      }
    }
  }

  // One turn of the loop, on what is still to be written.
  lemma {:induction false} WriteOne(ls: seq<Line>, blankline: bool, out: string, rest: seq<Line>)
    requires ls != [] && rest == ls[1..]
    ensures var (empty, text) := Emptied(ls[0].text);
      out + Unlines(Cleaned(ls, blankline)) ==
        (if empty then if blankline then out else out + "\n" else out + text + "\n")
        + Unlines(Cleaned(rest, empty))
  {
    var (empty, text) := Emptied(ls[0].text);
    var more := Cleaned(rest, empty);
    if empty {
      if !blankline {
        assert ([""] + more)[1..] == more;
        assert "" + ("\n" + Unlines(more)) == "\n" + Unlines(more);
        Regroup(out, "\n", Unlines(more));
      } else {
        assert [] + more == more;
      }
    } else {
      assert ([text] + more)[1..] == more;
      Regroup(out, text, "\n" + Unlines(more));
      Regroup(out + text, "\n", Unlines(more));
    }
  }
}
