/** What getnextline (config/makedepend/main.c:552-616) makes of a text: comments and continued
    line ends are blanked, and of the lines that remain those that begin with # are returned. */
module CleanText {
  import opened Names

  predicate Opens(t: string) {
    |t| >= 2 && t[0] == '/' && t[1] == '*'
  }

  predicate Closes(t: string) {
    |t| >= 2 && t[0] == '*' && t[1] == '/'
  }

  predicate Continues(t: string) {
    |t| >= 2 && t[0] == '\\' && t[1] == '\n'
  }

  // The text with comments and backslash-newline pairs blanked, character by character.
  function Clean(t: string): (c: string)
    ensures |c| == |t|
    decreases |t|
  {
    if t == [] then []
    else if Opens(t) then "  " + InComment(t[2..])
    else if Continues(t) then "  " + Clean(t[2..])
    else [t[0]] + Clean(t[1..])
  }

  function InComment(t: string): (c: string)
    ensures |c| == |t|
    decreases |t|
  {
    if t == [] then []
    else if Closes(t) then "  " + Clean(t[2..])
    else " " + InComment(t[1..])
  }

  // ---------------------------------------------------------------- what is blanked, on whole texts

  function Spaces(n: nat): string {
    seq(n, _ => ' ')
  }

  // Neither a comment nor a continuation begins in the text.
  predicate IsPlain(a: string) {
    forall i :: 0 <= i < |a| - 1 ==> !(a[i] == '/' && a[i + 1] == '*') && !(a[i] == '\\' && a[i + 1] == '\n')
  }

  // The comment does not end within its text.
  predicate StaysOpen(body: string) {
    forall i :: 0 <= i < |body| - 1 ==> !(body[i] == '*' && body[i + 1] == '/')
  }

  lemma {:induction false} PlainStays(a: string, t: string)
    requires IsPlain(a) && (t == [] || t[0] == '/' || t[0] == '\\')
    ensures Clean(a + t) == a + Clean(t)
  {
    if a == [] {
      assert a + t == t && a + Clean(t) == Clean(t);
    } else {
      assert (a + t)[1..] == a[1..] + t && (|a| > 1 ==> (a + t)[1] == a[1]);
      PlainStays(a[1..], t);
      assert [a[0]] + (a[1..] + Clean(t)) == a + Clean(t);
    }
  }

  lemma {:induction false} BlankedToItsEnd(body: string, b: string)
    requires StaysOpen(body)
    ensures InComment(body + ['*', '/'] + b) == Spaces(|body| + 2) + Clean(b)
    ensures InComment(body) == Spaces(|body|)
  {
    var t := body + ['*', '/'] + b;
    if body == [] {
      assert t[2..] == b;
      assert Spaces(2) == "  ";
    } else {
      assert t[1..] == body[1..] + ['*', '/'] + b && t[1] == if |body| > 1 then body[1] else '*';
      BlankedToItsEnd(body[1..], b);
      assert " " + (Spaces(|body| + 1) + Clean(b)) == Spaces(|body| + 2) + Clean(b);
      assert " " + Spaces(|body| - 1) == Spaces(|body|);
    }
  }

  /** A comment becomes as many blanks as it has characters, also if it is never closed; what stands in
      front of it stays, and what follows is cleaned in turn. */
  lemma {:induction false} CommentIsBlanked(a: string, body: string, b: string)
    requires IsPlain(a) && StaysOpen(body)
    ensures Clean(a + ['/', '*'] + body + ['*', '/'] + b) == a + Spaces(|body| + 4) + Clean(b)
    ensures Clean(a + ['/', '*'] + body) == a + Spaces(|body| + 2)
  {
    var t := ['/', '*'] + (body + ['*', '/'] + b);
    var u := ['/', '*'] + body;
    assert a + ['/', '*'] + body + ['*', '/'] + b == a + t && a + ['/', '*'] + body == a + u;
    PlainStays(a, t);
    PlainStays(a, u);
    assert t[2..] == body + ['*', '/'] + b && u[2..] == body;
    BlankedToItsEnd(body, b);
    assert "  " + (Spaces(|body| + 2) + Clean(b)) == Spaces(|body| + 4) + Clean(b);
    assert "  " + Spaces(|body|) == Spaces(|body| + 2);
    assert a + (Spaces(|body| + 4) + Clean(b)) == a + Spaces(|body| + 4) + Clean(b);
  }

  /** A backslash and the newline behind it become two blanks. */
  lemma {:induction false} ContinuationIsBlanked(a: string, b: string)
    requires IsPlain(a)
    ensures Clean(a + ['\\', '\n'] + b) == a + [' ', ' '] + Clean(b) && Clean(a) == a
  {
    var t := ['\\', '\n'] + b;
    assert a + ['\\', '\n'] + b == a + t && t[2..] == b;
    PlainStays(a, t);
    PlainStays(a, []);
    assert a + [] == a;
    assert a + ("  " + Clean(b)) == a + [' ', ' '] + Clean(b);
  }

  predicate Hash(line: string) {
    line != [] && line[0] == '#'
  }

  // Only # and blanks, as yacc writes it.
  predicate Bare(line: string) {
    Hash(line) && forall i :: 1 <= i < |line| ==> line[i] == ' ' || line[i] == '\t'
  }

  /** The lines that begin with #. */
  function HashLines(c: string): (ls: seq<string>)
    ensures forall l :: l in ls ==> Hash(l) && '\n' !in l
    decreases |c|
  {
    var n := LineLength(c);
    var first := if Hash(c[..n]) then [c[..n]] else [];
    first + if n == |c| then [] else HashLines(c[n + 1..])
  }

  // No line that ends in a newline is bare.
  predicate NoBare(c: string)
    decreases |c|
  {
    var n := LineLength(c);
    n == |c| || (!Bare(c[..n]) && NoBare(c[n + 1..]))
  }

  // ---------------------------------------------------------------- what one call returns

  function NewlineAt(t: string): nat {
    if t != [] && t[0] == '\n' then 1 else 0
  }

  function Newlines(t: string): nat {
    if t == [] then 0 else NewlineAt(t) + Newlines(t[1..])
  }

  // The line found, the text behind it and the newlines passed. Overrun: the pointer has left the
  // buffer.
  datatype Stop = Found(line: string, rest: string, newlines: nat) | Exhausted(newlines: nat) | Overrun

  // One call, from inside a line: line is what the current line has become so far, t the text that
  // follows, in a comment or not. A bare line is passed over, and with it the first character of
  // the next line, which is neither looked at nor taken into the line.
  function Walk(t: string, comment: bool, line: string, newlines: nat): (r: Stop)
    ensures r.Found? ==> |r.rest| < |line| + |t|
    decreases |t|
  {
    if t == [] then if Hash(line) then Found(line, [], newlines) else Exhausted(newlines)
    else if comment then
      if Closes(t) then Walk(t[2..], false, line + "  ", newlines)
      else Walk(t[1..], true, line + " ", newlines + NewlineAt(t))
    else if Opens(t) then Walk(t[2..], true, line + "  ", newlines)
    else if Continues(t) then Walk(t[2..], false, line + "  ", newlines + 1)
    else if t[0] != '\n' then Walk(t[1..], false, line + [t[0]], newlines)
    else if !Hash(line) then Walk(t[1..], false, [], newlines + 1)
    else if !Bare(line) then Found(line, t[1..], newlines + 1)
    else if |t| == 1 then Overrun
    else Walk(t[2..], false, [], newlines + 1)
  }

  function Call(t: string): (r: Stop)
    ensures r.Found? ==> |r.rest| < |t|
  {
    Walk(t, false, [], 0)
  }

  // The lines returned by calling again and again.
  function Scanned(t: string): seq<string>
    decreases |t|
  {
    var r := Call(t);
    if r.Found? then [r.line] + Scanned(r.rest) else []
  }

  predicate Steady(t: string)
    decreases |t|
  {
    var r := Call(t);
    !r.Overrun? && (r.Found? ==> Steady(r.rest))
  }

  // ---------------------------------------------------------------- without a bare line

  function CleanFrom(t: string, comment: bool): (c: string)
    ensures |c| == |t|
  {
    if comment then InComment(t) else Clean(t)
  }

  lemma {:induction false} FirstLineOf(line: string, t: string)
    requires '\n' !in line
    ensures LineLength(line + ("\n" + t)) == |line|
    ensures (line + ("\n" + t))[..|line|] == line && (line + ("\n" + t))[|line| + 1..] == t
  {
    var c := line + ("\n" + t);
    assert c[|line|] == '\n';
    assert forall i :: 0 <= i < |line| ==> c[i] == line[i];
  }

  lemma {:induction false} OnlyLineOf(line: string)
    requires '\n' !in line
    ensures LineLength(line) == |line| && line[..|line|] == line
  {
  }

  lemma {:induction false} LoneLine(line: string)
    requires '\n' !in line
    ensures HashLines(line) == (if line != [] && line[0] == '#' then [line] else []) && NoBare(line)
  {
    OnlyLineOf(line);
  }

  /** The lines counted are those that begin with #; a bare one has nothing but blanks and tabs behind it,
      and a newline at its end. */
  lemma {:induction false} HashLinesLineByLine(line: string, x: string)
    requires '\n' !in line
    ensures HashLines(line) == (if line != [] && line[0] == '#' then [line] else []) && NoBare(line)
    ensures HashLines(line + ['\n'] + x) == (if line != [] && line[0] == '#' then [line] else []) + HashLines(x)
    ensures NoBare(line + ['\n'] + x) <==> !HashAlone(line) && NoBare(x)
    ensures Newlines(line) == 0 && Newlines(line + ['\n'] + x) == 1 + Newlines(x)
  {
    LoneLine(line);
    LinesFromNewline(line, x);
    Regroup(line, "\n", x);
    NewlinesBehind(line, x);
  }

  // A # with nothing behind it but blanks and tabs.
  predicate HashAlone(line: string) {
    line != [] && line[0] == '#' && forall i :: 1 <= i < |line| ==> line[i] == ' ' || line[i] == '\t'
  }

  lemma {:induction false} NewlinesBehind(line: string, x: string)
    requires '\n' !in line
    ensures Newlines(line) == 0 && Newlines(line + ['\n'] + x) == 1 + Newlines(x)
  {
    var t := line + ['\n'] + x;
    if line == [] {
      assert t[1..] == x;
    } else {
      assert t[1..] == line[1..] + ['\n'] + x && line[0] in line;
      NewlinesBehind(line[1..], x);
    }
  }

  // What a call has to do with the cleaned text c, of which it is to find the first line with #.
  ghost predicate Finds(c: string, newlines: nat, r: Stop) {
    match r
    case Overrun => false
    case Exhausted(n) => HashLines(c) == [] && n == newlines
    case Found(line, rest, n) =>
      HashLines(c) == [line] + HashLines(Clean(rest)) && NoBare(Clean(rest)) && n + Newlines(rest) == newlines
  }

  lemma {:induction false} FindsAtEnd(line: string, newlines: nat)
    requires '\n' !in line
    ensures Finds(line, newlines, if Hash(line) then Found(line, [], newlines) else Exhausted(newlines))
  {
    OnlyLineOf(line);
    assert Clean([]) == [] && HashLines([]) == [] && Newlines([]) == 0;
  }

  lemma {:induction false} LinesFromNewline(line: string, x: string)
    requires '\n' !in line
    ensures HashLines(line + ("\n" + x)) == (if Hash(line) then [line] else []) + HashLines(x)
    ensures NoBare(line + ("\n" + x)) == (!Bare(line) && NoBare(x))
  {
    FirstLineOf(line, x);
  }

  lemma {:induction false} FindsAtNewline(line: string, rest: string, newlines: nat, c: string)
    requires c == line + ("\n" + Clean(rest)) && '\n' !in line && NoBare(c)
    ensures !Bare(line) && NoBare(Clean(rest))
    ensures Hash(line) ==> Finds(c, newlines + Newlines(rest), Found(line, rest, newlines))
  {
    LinesFromNewline(line, Clean(rest));
  }

  lemma {:induction false} FindsBehind(line: string, rest: string, newlines: nat, c: string, r: Stop)
    requires c == line + ("\n" + Clean(rest)) && '\n' !in line && !Hash(line)
    requires Finds(Clean(rest), newlines, r)
    ensures Finds(c, newlines, r)
  {
    LinesFromNewline(line, Clean(rest));
    assert [] + HashLines(Clean(rest)) == HashLines(Clean(rest));
  }

  /** The character loop, from inside a line of a text without bare lines. */
  lemma {:induction false} WalkFinds(t: string, comment: bool, line: string, newlines: nat, c: string, r: Stop)
    requires c == line + CleanFrom(t, comment) && '\n' !in line && NoBare(c)
    requires r == Walk(t, comment, line, newlines)
    ensures Finds(c, newlines + Newlines(t), r)
    decreases |t|, 0
  {
    if t == [] {
      assert c == line;
      FindsAtEnd(line, newlines);
    } else if comment {
      if Closes(t) {
        Regroup(line, "  ", Clean(t[2..]));
        WalkFinds(t[2..], false, line + "  ", newlines, c, r);
      } else {
        Regroup(line, " ", InComment(t[1..]));
        WalkFinds(t[1..], true, line + " ", newlines + NewlineAt(t), c, r);
      }
    } else if Opens(t) {
      Regroup(line, "  ", InComment(t[2..]));
      WalkFinds(t[2..], true, line + "  ", newlines, c, r);
    } else if Continues(t) {
      Regroup(line, "  ", Clean(t[2..]));
      WalkFinds(t[2..], false, line + "  ", newlines + 1, c, r);
    } else if t[0] != '\n' {
      Regroup(line, [t[0]], Clean(t[1..]));
      WalkFinds(t[1..], false, line + [t[0]], newlines, c, r);
    } else {
      WalkFindsAtNewline(t[1..], line, newlines, c, r);
    }
  }

  lemma {:induction false} WalkFindsAtNewline(rest: string, line: string, newlines: nat, c: string, r: Stop)
    requires c == line + ("\n" + Clean(rest)) && '\n' !in line && NoBare(c)
    requires !Hash(line) ==> r == Walk(rest, false, [], newlines + 1)
    requires Hash(line) && !Bare(line) ==> r == Found(line, rest, newlines + 1)
    ensures Finds(c, newlines + 1 + Newlines(rest), r)
    decreases |rest|, 1
  {
    FindsAtNewline(line, rest, newlines + 1, c);
    if !Hash(line) {
      assert [] + Clean(rest) == Clean(rest);
      WalkFinds(rest, false, [], newlines + 1, Clean(rest), r);
      FindsBehind(line, rest, newlines + 1 + Newlines(rest), c, r);
    }
  }

  lemma {:induction false} CallFinds(t: string)
    requires NoBare(Clean(t))
    ensures Finds(Clean(t), Newlines(t), Call(t))
  {
    assert [] + Clean(t) == Clean(t);
    WalkFinds(t, false, [], 0, Clean(t), Call(t));
  }

  /** Without a bare line, the calls return exactly the lines of the cleaned text that begin with #,
      in order. */
  lemma {:induction false} ScannedAreTheHashLines(t: string)
    requires NoBare(Clean(t))
    ensures Steady(t) && Scanned(t) == HashLines(Clean(t))
    decreases |t|
  {
    CallFinds(t);
    var r := Call(t);
    if r.Found? { ScannedAreTheHashLines(r.rest); }
  }

  // Only the line counter depends on where it started.
  predicate SameBut(r: Stop, r': Stop) {
    match r
    case Overrun => r'.Overrun?
    case Exhausted(_) => r'.Exhausted?
    case Found(line, rest, _) => r'.Found? && r'.line == line && r'.rest == rest
  }

  lemma {:induction false} CounterIsIndependent(t: string, comment: bool, line: string, m: nat, n: nat)
    ensures SameBut(Walk(t, comment, line, m), Walk(t, comment, line, n))
    decreases |t|
  {
    if t == [] {
    } else if comment {
      if Closes(t) { CounterIsIndependent(t[2..], false, line + "  ", m, n); }
      else { CounterIsIndependent(t[1..], true, line + " ", m + NewlineAt(t), n + NewlineAt(t)); }
    } else if Opens(t) {
      CounterIsIndependent(t[2..], true, line + "  ", m, n);
    } else if Continues(t) {
      CounterIsIndependent(t[2..], false, line + "  ", m + 1, n + 1);
    } else if t[0] != '\n' {
      CounterIsIndependent(t[1..], false, line + [t[0]], m, n);
    } else if !Hash(line) {
      CounterIsIndependent(t[1..], false, [], m + 1, n + 1);
    } else if Bare(line) && |t| > 1 {
      CounterIsIndependent(t[2..], false, [], m + 1, n + 1);
    }
  }
}
