/** How config/imake/imake.c carries make comments through cpp: CleanCppInput hides a line-initial #
    that begins no directive behind the token XCOMM, and isempty turns the token back. */
module ImakeComments {
  import opened Names

  predicate IsBlank(c: char) {
    c == ' ' || c == '\t'
  }

  // ---------------------------------------------------------------- the input

  function SkipBlanks(t: string): (r: string)
    ensures |r| <= |t|
  {
    if t != [] && IsBlank(t[0]) then SkipBlanks(t[1..]) else t
  }

  // Up to a blank, a newline or the end.
  function Token(t: string): (w: string)
    ensures |w| <= |t|
  {
    if t != [] && !IsBlank(t[0]) && t[0] != '\n' then [t[0]] + Token(t[1..]) else []
  }

  predicate IsDirective(token: string) {
    token == "define" || token == "if" || token == "ifdef" || token == "ifndef" || token == "include"
    || token == "line" || token == "else" || token == "elif" || token == "endif" || token == "error"
    || token == "pragma" || token == "undef"
  }

  // What follows the # is no directive of cpp.
  predicate IsComment(rest: string) {
    !IsDirective(Token(SkipBlanks(rest)))
  }

  // What is written for the #.
  function Hidden(rest: string): string {
    if rest != [] && IsBlank(rest[0]) then "XCOMM" else "XCOMM "
  }

  // The walk over the text t, whose two characters before are given.
  function Rewritten(before: char, last: char, t: string): string
    decreases |t|
  {
    if t == [] then []
    else (if t[0] == '#' && last == '\n' && before != '\\' && IsComment(t[1..]) then Hidden(t[1..]) else [t[0]])
         + Rewritten(last, t[0], t[1..])
  }

  // The text is preceded by two newlines.
  function CleanedInput(text: string): string {
    Rewritten('\n', '\n', text)
  }

  // ---------------------------------------------------------------- line by line

  // What becomes of one line, without its newline.
  function RewriteLine(line: string, continued: bool): string {
    if line != [] && line[0] == '#' && !continued && IsComment(line[1..])
    then Hidden(line[1..]) + line[1..] else line
  }

  predicate EndsInBackslash(line: string) {
    line != [] && line[|line| - 1] == '\\'
  }

  function RewriteLines(t: string, continued: bool): string
    decreases |t|
  {
    var n := LineLength(t);
    RewriteLine(t[..n], continued)
    + if n == |t| then [] else "\n" + RewriteLines(t[n + 1..], EndsInBackslash(t[..n]))
  }

  // A token does not reach beyond its line.
  lemma {:induction false} TokenStops(line: string, t: string)
    requires '\n' !in line && (t == [] || t[0] == '\n')
    ensures Token(line + t) == Token(line)
  {
    if line == [] {
      assert line + t == t;
    } else {
      assert (line + t)[1..] == line[1..] + t;
      TokenStops(line[1..], t);
    }
  }

  lemma {:induction false} CommentIsLocal(line: string, t: string)
    requires '\n' !in line && (t == [] || t[0] == '\n')
    ensures IsComment(line + t) == IsComment(line)
  {
    if line != [] && IsBlank(line[0]) {
      assert (line + t)[1..] == line[1..] + t;
      CommentIsLocal(line[1..], t);
    } else {
      assert line != [] ==> (line + t)[0] == line[0];
      assert line == [] ==> line + t == t;
      TokenStops(line, t);
    }
  }

  function LastOf(line: string, last: char): char {
    if line == [] then last else line[|line| - 1]
  }

  // The end of a line, and the next line if there is one.
  function Onward(last: char, rest: string): string {
    if rest == [] then [] else "\n" + Rewritten(last, '\n', rest[1..])
  }

  // Inside a line nothing is rewritten.
  lemma {:induction false} RestOfLine(before: char, last: char, line: string, rest: string)
    requires last != '\n' && '\n' !in line && (rest == [] || rest[0] == '\n')
    ensures Rewritten(before, last, line + rest) == line + Onward(LastOf(line, last), rest)
    decreases |line|
  {
    if line == [] {
      assert line + rest == rest && [] + Onward(last, rest) == Onward(last, rest);
    } else {
      var tail := line[1..];
      assert (line + rest)[1..] == tail + rest && line[0] != '\n' && '\n' !in tail;
      RestOfLine(last, line[0], tail, rest);
      assert LastOf(tail, line[0]) == LastOf(line, last);
      Regroup([line[0]], tail, Onward(LastOf(line, last), rest));
    }
  }

  // Either way of going on from the end of a line.
  function OnwardLines(line: string, rest: string): string {
    if rest == [] then [] else "\n" + RewriteLines(rest[1..], EndsInBackslash(line))
  }

  lemma {:induction false} FirstLineOf(line: string, rest: string)
    requires '\n' !in line && (rest == [] || rest[0] == '\n')
    ensures LineLength(line + rest) == |line|
  {
    if line == [] {
      assert line + rest == rest;
    } else {
      assert (line + rest)[1..] == line[1..] + rest && line[0] != '\n' && '\n' !in line[1..];
      FirstLineOf(line[1..], rest);
    }
  }

  lemma {:induction false} LinesFrom(line: string, rest: string, continued: bool)
    requires '\n' !in line && (rest == [] || rest[0] == '\n')
    ensures RewriteLines(line + rest, continued) == RewriteLine(line, continued) + OnwardLines(line, rest)
  {
    var t := line + rest;
    FirstLineOf(line, rest);
    assert t[..|line|] == line && (rest != [] ==> t[|line| + 1..] == rest[1..]);
  }

  // The pointer stands at the beginning of a line.
  lemma {:induction false} LineByLine(before: char, t: string)
    ensures Rewritten(before, '\n', t) == RewriteLines(t, before == '\\')
    decreases |t|
  {
    var n := LineLength(t);
    var line, rest := t[..n], t[n..];
    assert t == line + rest;
    LinesFrom(line, rest, before == '\\');
    if line == [] {
      EmptyLine(before, rest);
      if rest != [] { LineByLine('\n', rest[1..]); }
    } else {
      FirstOfLine(before, line, rest);
      assert line[n - 1] == '\\' <==> EndsInBackslash(line);
      if rest != [] { LineByLine(line[n - 1], rest[1..]); }
    }
  }

  lemma {:induction false} EmptyLine(before: char, rest: string)
    requires rest == [] || rest[0] == '\n'
    ensures Rewritten(before, '\n', [] + rest) == [] + Onward('\n', rest)
    ensures forall continued :: RewriteLine([], continued) == []
  {
    assert [] + rest == rest && [] + Onward('\n', rest) == Onward('\n', rest);
  }

  lemma {:induction false} HeadOfLine(line: string, rest: string)
    requires line != [] && '\n' !in line && (rest == [] || rest[0] == '\n')
    ensures (line + rest)[0] == line[0] && (line + rest)[1..] == line[1..] + rest && '\n' !in line[1..]
    ensures [line[0]] + line[1..] == line && LastOf(line[1..], line[0]) == line[|line| - 1]
    ensures Hidden(line[1..] + rest) == Hidden(line[1..])
  {
    assert line[1..] == [] ==> line[1..] + rest == rest;
  }

  lemma {:induction false} FirstOfLine(before: char, line: string, rest: string)
    requires line != [] && '\n' !in line && (rest == [] || rest[0] == '\n')
    ensures Rewritten(before, '\n', line + rest) ==
      RewriteLine(line, before == '\\') + Onward(line[|line| - 1], rest)
  {
    var c, tail := line[0], line[1..];
    HeadOfLine(line, rest);
    CommentIsLocal(tail, rest);
    RestOfLine('\n', c, tail, rest);
    var onward := Onward(line[|line| - 1], rest);
    Regroup(if c == '#' && before != '\\' && IsComment(tail) then Hidden(tail) else [c], tail, onward);
  }

  /** Line by line: exactly the # that begin a line, follow no continued line and begin no directive
      are replaced, and every other character is kept. */
  lemma {:induction false} InputIsRewrittenByLines(text: string)
    ensures CleanedInput(text) == RewriteLines(text, false)
  {
    LineByLine('\n', text);
  }

  // ---------------------------------------------------------------- whole texts

  // A line that is not continued from the one before begins behind pre.
  predicate AtLineStart(pre: string) {
    pre == [] || (pre[|pre| - 1] == '\n' && !(|pre| >= 2 && pre[|pre| - 2] == '\\'))
  }

  // What the text becomes from the end of a line on.
  function Rest(post: string): string {
    if post == [] then [] else "\n" + CleanedInput(post[1..])
  }

  // Whether a # begins a comment is settled by what follows on its line.
  lemma {:induction false} CommentWithin(x: string, t: string)
    requires x != [] && x[|x| - 1] == '\n'
    ensures IsComment(x + t) == IsComment(x) && Hidden(x + t) == Hidden(x)
  {
    var n := LineLength(x);
    var line, rest := x[..n], x[n..];
    assert n < |x| && x == line + rest && x + t == line + (rest + t);
    CommentIsLocal(line, rest);
    CommentIsLocal(line, rest + t);
  }

  // The last character of a text, and the one before.
  function LastTwo(before: char, last: char, a: string): (char, char)
    decreases |a|
  {
    if a == [] then (before, last) else LastTwo(last, a[0], a[1..])
  }

  lemma {:induction false} LastTwoAre(before: char, last: char, a: string)
    requires a != []
    ensures LastTwo(before, last, a) == (if |a| == 1 then last else a[|a| - 2], a[|a| - 1])
    decreases |a|
  {
    if |a| > 1 { LastTwoAre(last, a[0], a[1..]); }
  }

  lemma {:induction false} WholeLinesApart(before: char, last: char, a: string, t: string)
    requires a != [] ==> a[|a| - 1] == '\n'
    ensures var (b, l) := LastTwo(before, last, a);
      Rewritten(before, last, a + t) == Rewritten(before, last, a) + Rewritten(b, l, t)
    decreases |a|
  {
    if a == [] {
      assert a + t == t;
    } else {
      var tail := a[1..];
      assert (a + t)[1..] == tail + t;
      WholeLinesApart(last, a[0], tail, t);
      if tail != [] { CommentWithin(tail, t); }
      var head := Rewritten(before, last, [a[0]] + tail);
      var first := if a[0] == '#' && last == '\n' && before != '\\' && IsComment(tail) then Hidden(tail) else [a[0]];
      assert [a[0]] + tail == a;
      var (b, l) := LastTwo(last, a[0], tail);
      Regroup(first, Rewritten(last, a[0], tail), Rewritten(b, l, t));
    }
  }

  /** A text is rewritten line by line: what precedes a line that is not continued, the line, and what follows it. */
  lemma {:induction false} LineInText(pre: string, line: string, post: string)
    requires AtLineStart(pre) && '\n' !in line && !EndsInBackslash(line) && (post == [] || post[0] == '\n')
    ensures CleanedInput(pre + line + post) == CleanedInput(pre) + RewriteLine(line, false) + Rest(post)
  {
    assert pre + line + post == pre + (line + post);
    WholeLinesApart('\n', '\n', pre, line + post);
    if pre != [] { LastTwoAre('\n', '\n', pre); }
    var (b, l) := LastTwo('\n', '\n', pre);
    LineByLine(b, line + post);
    LinesFrom(line, post, false);
    if post != [] { InputIsRewrittenByLines(post[1..]); }
    Regroup(CleanedInput(pre), RewriteLine(line, false), Rest(post));
  }

  // Blanks, a word and what a blank separates from it.
  lemma {:induction false} TokenBehindBlanks(blanks: string, word: string, rest: string)
    requires (forall c :: c in blanks ==> c == ' ' || c == '\t') && (rest != [] ==> rest[0] == ' ' || rest[0] == '\t')
    requires (forall c :: c in word ==> c != ' ' && c != '\t' && c != '\n') && (word == [] ==> rest == [])
    ensures Token(SkipBlanks(blanks + (word + rest))) == word
    decreases |blanks| + |word|
  {
    var t := blanks + (word + rest);
    if blanks != [] {
      assert t[0] == blanks[0] && t[1..] == blanks[1..] + (word + rest);
      assert blanks[0] in blanks && forall c :: c in blanks[1..] ==> c in blanks;
      TokenBehindBlanks(blanks[1..], word, rest);
    } else if word != [] {
      assert t == word + rest && word[0] in word && !IsBlank(t[0]);
      WordIsToken(word, rest);
    } else {
      assert t == [];
    }
  }

  lemma {:induction false} WordIsToken(word: string, rest: string)
    requires (forall c :: c in word ==> c != ' ' && c != '\t' && c != '\n')
    requires rest != [] ==> rest[0] == ' ' || rest[0] == '\t'
    ensures Token(word + rest) == word
    decreases |word|
  {
    if word == [] {
      assert word + rest == rest;
    } else {
      assert (word + rest)[1..] == word[1..] + rest && word[0] in word && forall c :: c in word[1..] ==> c in word;
      WordIsToken(word[1..], rest);
      assert [word[0]] + word[1..] == word;
    }
  }

  // A line of the given form.
  predicate HashLine(line: string, blanks: string, word: string, rest: string) {
    && line == "#" + (blanks + (word + rest))
    && (forall c :: c in blanks ==> c == ' ' || c == '\t')
    && (forall c :: c in word ==> c != ' ' && c != '\t' && c != '\n')
    && (rest != [] ==> rest[0] == ' ' || rest[0] == '\t') && (word == [] ==> rest == [])
    && '\n' !in line && !EndsInBackslash(line)
  }

  predicate TwelveWords(word: string) {
    word == "define" || word == "undef" || word == "include" || word == "line" || word == "error" || word == "pragma"
    || word == "if" || word == "ifdef" || word == "ifndef" || word == "elif" || word == "else" || word == "endif"
  }

  /** In any text a line that begins with #, blanks and one of the twelve words is kept as it is; behind any other
      word, or none, XCOMM takes the place of the #, with a blank behind it if there is none; and a line that
      does not begin with # is kept. */
  lemma {:induction false} HashLineIsKeptOrHidden(pre: string, line: string, post: string, blanks: string,
                                                   word: string, rest: string)
    requires AtLineStart(pre) && HashLine(line, blanks, word, rest) && (post == [] || post[0] == '\n')
    ensures CleanedInput(pre + line + post) ==
      CleanedInput(pre) +
      (if TwelveWords(word) then line
       else if blanks == [] then "XCOMM " + (word + rest) else "XCOMM" + (blanks + (word + rest))) + Rest(post)
  {
    LineInText(pre, line, post);
    HashLineRewritten(line, blanks, word, rest);
  }

  lemma {:induction false} BehindHash(line: string, blanks: string, word: string, rest: string)
    requires HashLine(line, blanks, word, rest)
    ensures line != [] && line[0] == '#' && line[1..] == blanks + (word + rest)
    ensures line[1..] != [] && IsBlank(line[1..][0]) <==> blanks != []
    ensures blanks == [] ==> line[1..] == word + rest
  {
    assert line[1..] == blanks + (word + rest);
    if blanks == [] {
      assert line[1..] == word + rest;
      assert word != [] ==> word[0] in word && line[1..][0] == word[0];
    } else {
      assert line[1..][0] == blanks[0] && blanks[0] in blanks;
    }
  }

  lemma {:induction false} HashLineRewritten(line: string, blanks: string, word: string, rest: string)
    requires HashLine(line, blanks, word, rest)
    ensures RewriteLine(line, false) ==
      if TwelveWords(word) then line
      else if blanks == [] then "XCOMM " + (word + rest) else "XCOMM" + (blanks + (word + rest))
  {
    BehindHash(line, blanks, word, rest);
    TokenBehindBlanks(blanks, word, rest);
    assert IsComment(line[1..]) <==> !TwelveWords(word);
  }

  lemma {:induction false} PlainLineIsKept(pre: string, line: string, post: string)
    requires AtLineStart(pre) && '\n' !in line && !EndsInBackslash(line) && (post == [] || post[0] == '\n')
    requires line == [] || line[0] != '#'
    ensures CleanedInput(pre + line + post) == CleanedInput(pre) + line + Rest(post)
  {
    LineInText(pre, line, post);
  }

  /** So is every line behind one that ends in a backslash, up to its end. */
  lemma {:induction false} ContinuedLineIsKept(before: char, line: string)
    requires '\n' !in line
    ensures Rewritten('\\', '\n', line) == line
  {
    LineByLine('\\', line);
    assert line + [] == line;
    LinesFrom(line, [], true);
  }

  // ---------------------------------------------------------------- the output

  // XCOMM at the front, with a blank or the end behind it.
  predicate TokenAt(s: string) {
    |s| >= 5 && s[..5] == "XCOMM" && (|s| == 5 || IsBlank(s[5]))
  }

  // The loop of isempty over a line that does not begin with #: the token becomes # where a line or
  // a blank precedes it, as boundary says of s.
  function Uncomment(s: string, boundary: bool): (r: string)
    ensures |r| <= |s|
    decreases |s|
  {
    if s == [] then []
    else if boundary && TokenAt(s) then "#" + Uncomment(s[5..], false)
    else [s[0]] + Uncomment(s[1..], IsBlank(s[0]))
  }

  // Blanks at the end are cut off.
  function Trim(s: string): (r: string)
    ensures r == [] || !IsBlank(r[|r| - 1])
    ensures |r| <= |s| && r == s[..|r|]
  {
    if s != [] && IsBlank(s[|s| - 1]) then Trim(s[..|s| - 1]) else s
  }

  function SkipDigits(s: string): (r: string)
    ensures |r| <= |s|
  {
    if s != [] && IsDigit(s[0]) then SkipDigits(s[1..]) else s
  }

  function AfterPrefix(s: string, p: string): string {
    if |p| <= |s| && s[..|p|] == p then s[|p|..] else s
  }

  // The line markers of cpp: # n and # line n, with nothing or a file name behind.
  predicate IsCookie(line: string) {
    line != [] && line[0] == '#' &&
    var s := AfterPrefix(AfterPrefix(line[1..], " "), "line ");
    s != [] && IsDigit(s[0]) &&
    var r := SkipDigits(s);
    r == [] || r[0] == '\n' || (|r| > 1 && r[0] == ' ' && r[1] == '"')
  }

  // isempty: whether the line is dropped, and what it has become if not.
  function Emptied(line: string): (r: (bool, string)) {
    if IsCookie(line) then (true, line)
    else
      var t := Trim(if line != [] && line[0] == '#' then line else Uncomment(line, true));
      (t == [], t)
  }

  // ---------------------------------------------------------------- lines of the output, spelt out

  predicate AllDigits(s: string) {
    s != [] && forall c :: c in s ==> '0' <= c <= '9'
  }

  // A marker that cpp leaves in its output.
  predicate IsMarker(line: string, front: string, digits: string, tail: string) {
    && line == front + (digits + tail)
    && (front == "#" || front == "# " || front == "#line " || front == "# line ") && AllDigits(digits)
    && (tail == [] || tail[0] == '\n' || (|tail| > 1 && tail[0] == ' ' && tail[1] == '"'))
  }

  lemma {:induction false} DigitsOf(s: string) returns (digits: string)
    ensures s == digits + SkipDigits(s) && forall c :: c in digits ==> '0' <= c <= '9'
    ensures s != [] && IsDigit(s[0]) ==> digits != []
  {
    digits := [];
    if s != [] && IsDigit(s[0]) {
      var more := DigitsOf(s[1..]);
      digits := [s[0]] + more;
      assert s == [s[0]] + s[1..];
    }
  }

  lemma {:induction false} DigitsAreSkipped(digits: string, tail: string)
    requires (forall c :: c in digits ==> '0' <= c <= '9') && (tail == [] || !('0' <= tail[0] <= '9'))
    ensures SkipDigits(digits + tail) == tail
  {
    if digits == [] {
      assert digits + tail == tail;
    } else {
      assert digits[0] in digits && (digits + tail)[1..] == digits[1..] + tail;
      assert forall c :: c in digits[1..] ==> c in digits;
      DigitsAreSkipped(digits[1..], tail);
    }
  }

  lemma {:induction false} FrontOf(line: string) returns (front: string)
    requires line != [] && line[0] == '#'
    ensures line == front + AfterPrefix(AfterPrefix(line[1..], " "), "line ")
    ensures front == "#" || front == "# " || front == "#line " || front == "# line "
  {
    var a := AfterPrefix(line[1..], " ");
    var one := if a == line[1..] then "#" else "# ";
    assert line == one + a;
    front := if AfterPrefix(a, "line ") == a then one else one + "line ";
    assert |AfterPrefix(a, "line ")| < |a| ==> a == "line " + a[5..];
  }

  lemma {:induction false} WithPrefix(p: string, s: string)
    ensures AfterPrefix(p + s, p) == s
  {
  }

  lemma {:induction false} WithoutPrefix(p: string, s: string)
    requires s != [] && p != [] && s[0] != p[0]
    ensures AfterPrefix(s, p) == s
  {
    assert |p| <= |s| ==> s[..|p|][0] == s[0];
  }

  lemma {:induction false} BehindFront(front: string, s: string)
    requires front == "#" || front == "# " || front == "#line " || front == "# line "
    requires s != [] && '0' <= s[0] <= '9'
    ensures AfterPrefix(AfterPrefix((front + s)[1..], " "), "line ") == s
  {
    var t := if front == "#" || front == "# " then s else "line " + s;
    WithoutPrefix("line ", s);
    WithPrefix("line ", s);
    WithPrefix(" ", t);
    WithoutPrefix(" ", t);
    assert (front + s)[1..] == if front == "#" || front == "#line " then t else " " + t;
  }

  /** A line that begins with # is dropped exactly if it is a marker: #, # and a blank, or either with the
      word line and a blank behind it; then a number; then nothing, or a blank and a quote. */
  lemma {:induction false} DroppedExactlyWhenMarker(line: string)
    requires line != [] && line[0] == '#'
    ensures Emptied(line).0 <==> exists front, digits, tail :: IsMarker(line, front, digits, tail)
    ensures !Emptied(line).0 ==> Emptied(line).1 == Trim(line)
  {
    assert Trim(line) != [] by { TrimKeepsFirst(line); }
    if IsCookie(line) {
      var front := FrontOf(line);
      var s := AfterPrefix(AfterPrefix(line[1..], " "), "line ");
      var digits := DigitsOf(s);
      assert IsMarker(line, front, digits, SkipDigits(s));
    }
    forall front, digits, tail | IsMarker(line, front, digits, tail) ensures IsCookie(line) {
      assert digits[0] in digits && (digits + tail)[0] == digits[0];
      BehindFront(front, digits + tail);
      DigitsAreSkipped(digits, tail);
    }
  }

  lemma {:induction false} TrimKeepsFirst(s: string)
    requires s != [] && s[0] != ' ' && s[0] != '\t'
    ensures Trim(s) != [] && Trim(s)[0] == s[0]
    decreases |s|
  {
    if IsBlank(s[|s| - 1]) { TrimKeepsFirst(s[..|s| - 1]); }
  }

  /** Blanks and tabs at the end are cut off, and nothing else. */
  lemma {:induction false} TrimsBlanks(s: string, blanks: string)
    requires s == [] || (s[|s| - 1] != ' ' && s[|s| - 1] != '\t')
    requires forall c :: c in blanks ==> c == ' ' || c == '\t'
    ensures Trim(s + blanks) == s
    decreases |blanks|
  {
    var t := s + blanks;
    if blanks == [] {
      assert t == s;
    } else {
      var less := blanks[..|blanks| - 1];
      assert t[|t| - 1] == blanks[|blanks| - 1] && blanks[|blanks| - 1] in blanks;
      assert t[..|t| - 1] == s + less && forall c :: c in less ==> c in blanks;
      TrimsBlanks(s, less);
    }
  }

  // The token does not occur.
  predicate WithoutToken(a: string) {
    forall i :: 0 <= i < |a| ==> !("XCOMM" <= a[i..])
  }

  lemma {:induction false} NoTokenInFront(a: string, t: string)
    requires a != [] && WithoutToken(a) && (t == [] || a[|a| - 1] == ' ' || a[|a| - 1] == '\t')
    ensures !TokenAt(a + t) && WithoutToken(a[1..])
  {
    var u := a + t;
    assert a[0..] == a;
    assert |a| >= 5 ==> u[..5] == a[..5];
    assert |a| < 5 <= |u| ==> u[..5][|a| - 1] == a[|a| - 1];
    assert t == [] ==> u == a;
    assert forall i :: 0 <= i < |a[1..]| ==> a[1..][i..] == a[i + 1..];
  }

  lemma {:induction false} TextInFront(a: string, t: string, boundary: bool)
    requires WithoutToken(a) && (t == [] || a == [] || a[|a| - 1] == ' ' || a[|a| - 1] == '\t')
    ensures Uncomment(a + t, boundary) == a + Uncomment(t, if a == [] then boundary else IsBlank(a[|a| - 1]))
    decreases |a|
  {
    if a == [] {
      assert a + t == t;
    } else {
      NoTokenInFront(a, t);
      assert (a + t)[1..] == a[1..] + t;
      TextInFront(a[1..], t, IsBlank(a[0]));
      var rest := Uncomment(t, IsBlank(a[|a| - 1]));
      assert Uncomment(a[1..] + t, IsBlank(a[0])) == a[1..] + rest;
      assert [a[0]] + (a[1..] + rest) == a + rest;
    }
  }

  /** In a line that does not begin with #, the token XCOMM with a blank or the edge of the line on either side
      becomes a #; a text without it stays as it is. */
  lemma {:induction false} TokenBecomesHash(a: string, c: string)
    requires WithoutToken(a) && (a == [] || a[|a| - 1] == ' ' || a[|a| - 1] == '\t')
    requires c == [] || c[0] == ' ' || c[0] == '\t'
    ensures Uncomment(a + ("XCOMM" + c), true) == a + ("#" + Uncomment(c, false))
  {
    var t := "XCOMM" + c;
    assert t[..5] == "XCOMM" && t[5..] == c && (c != [] ==> t[5] == c[0]);
    TextInFront(a, t, true);
  }

  lemma {:induction false} TokenlessStays(a: string)
    requires WithoutToken(a) && (a == [] || a[0] != '#')
    ensures Emptied(a) == (Trim(a) == [], Trim(a))
  {
    TextInFront(a, [], true);
    assert a + [] == a && Uncomment([], true) == [] && Uncomment([], IsBlank('x')) == [];
  }

  // ---------------------------------------------------------------- there and back

  // Somewhere behind the # of a comment stands a token that will be taken for a hidden #.
  predicate HasToken(rest: string, boundary: bool) {
    exists i :: 0 <= i < |rest| && TokenAt(rest[i..]) && (if i == 0 then boundary else IsBlank(rest[i - 1]))
  }

  lemma {:induction false} TokenBehind(s: string, boundary: bool)
    requires s != [] && !(boundary && TokenAt(s))
    ensures HasToken(s, boundary) <==> HasToken(s[1..], IsBlank(s[0]))
  {
    if HasToken(s, boundary) {
      var i :| 0 <= i < |s| && TokenAt(s[i..]) && (if i == 0 then boundary else IsBlank(s[i - 1]));
      assert i > 0;
      assert s[1..][i - 1..] == s[i..] && (i > 1 ==> s[1..][i - 2] == s[i - 1]);
    }
    if HasToken(s[1..], IsBlank(s[0])) {
      var i :| 0 <= i < |s[1..]| && TokenAt(s[1..][i..]) && (if i == 0 then IsBlank(s[0]) else IsBlank(s[1..][i - 1]));
      assert s[i + 1..] == s[1..][i..] && (i > 0 ==> s[1..][i - 1] == s[i]);
    }
  }

  // The characters that are no blanks.
  function Visible(s: string): nat {
    if s == [] then 0 else (if IsBlank(s[0]) then 0 else 1) + Visible(s[1..])
  }

  lemma {:induction false} VisibleJoin(a: string, b: string)
    ensures Visible(a + b) == Visible(a) + Visible(b)
  {
    if a == [] {
      assert a + b == b;
    } else {
      assert (a + b)[1..] == a[1..] + b;
      VisibleJoin(a[1..], b);
    }
  }

  lemma {:induction false} TrimKeepsVisible(s: string)
    ensures Visible(Trim(s)) == Visible(s)
    decreases |s|
  {
    if s != [] && IsBlank(s[|s| - 1]) {
      var last := s[|s| - 1];
      assert s == s[..|s| - 1] + [last];
      VisibleJoin(s[..|s| - 1], [last]);
      assert Visible([last]) == 0;
      TrimKeepsVisible(s[..|s| - 1]);
    }
  }

  // Without a token nothing changes; with one, some visible characters are gone.
  lemma {:induction false} UncommentChanges(s: string, boundary: bool)
    ensures !HasToken(s, boundary) ==> Uncomment(s, boundary) == s
    ensures Visible(Uncomment(s, boundary)) <= Visible(s)
    ensures HasToken(s, boundary) ==> Visible(Uncomment(s, boundary)) < Visible(s)
    decreases |s|
  {
    if s == [] {
    } else if boundary && TokenAt(s) {
      UncommentChanges(s[5..], false);
      TokenShrinks(s);
    } else {
      TokenBehind(s, boundary);
      UncommentChanges(s[1..], IsBlank(s[0]));
      assert [s[0]] + s[1..] == s;
      VisibleJoin([s[0]], Uncomment(s[1..], IsBlank(s[0])));
      VisibleJoin([s[0]], s[1..]);
    }
  }

  lemma {:induction false} TokenShrinks(s: string)
    requires TokenAt(s) && Visible(Uncomment(s[5..], false)) <= Visible(s[5..])
    ensures HasToken(s, true) && Visible(Uncomment(s, true)) < Visible(s)
  {
    assert s[0..] == s;
    assert s == "XCOMM" + s[5..];
    VisibleJoin("XCOMM", s[5..]);
    VisibleJoin("#", Uncomment(s[5..], false));
  }

  // What a hidden comment is turned into.
  lemma {:induction false} HiddenComesBack(rest: string)
    ensures Uncomment(Hidden(rest) + rest, true) ==
      if rest != [] && IsBlank(rest[0]) then "#" + Uncomment(rest, false) else "#" + (" " + Uncomment(rest, true))
  {
    if rest != [] && IsBlank(rest[0]) {
      var s := "XCOMM" + rest;
      assert s[..5] == "XCOMM" && s[5] == rest[0] && s[5..] == rest;
    } else {
      var s := "XCOMM " + rest;
      var t := " " + rest;
      assert s[..5] == "XCOMM" && s[5] == ' ' && s[5..] == t && t[1..] == rest && !TokenAt(t);
      assert Uncomment(t, false) == [' '] + Uncomment(rest, true);
    }
  }

  lemma {:induction false} BackIsTrimmed(rest: string, back: string)
    requires IsComment(rest)
    requires back == if rest == [] || !IsBlank(rest[0]) then "#" + (" " + Uncomment(rest, true))
                     else "#" + Uncomment(rest, false)
    ensures Emptied(RewriteLine("#" + rest, false)) == (Trim(back) == [], Trim(back))
  {
    assert ("#" + rest)[1..] == rest;
    HiddenComesBack(rest);
  }

  // The comment with a blank behind its #.
  function Spaced(rest: string): string {
    if rest != [] && IsBlank(rest[0]) then "#" + rest else "#" + (" " + rest)
  }

  /** What isempty makes of a line that CleanCppInput has rewritten, cpp having left it alone: the
      comment as it was, but for one blank behind the # and the blanks at the end, if and only if its
      text holds no XCOMM token. */
  lemma {:induction false} CommentComesBack(rest: string)
    requires IsComment(rest)
    ensures Emptied(RewriteLine("#" + rest, false)) == (false, Trim(Spaced(rest)))
      <==> !HasToken(rest, rest == [] || !IsBlank(rest[0]))
  {
    var boundary := rest == [] || !IsBlank(rest[0]);
    UncommentChanges(rest, boundary);
    var back := if boundary then "#" + (" " + Uncomment(rest, true)) else "#" + Uncomment(rest, false);
    BackIsTrimmed(rest, back);
    VisibleSpaced(rest, Uncomment(rest, boundary));
    TrimKeepsVisible(back);
    TrimKeepsVisible(Spaced(rest));
  }

  lemma {:induction false} VisibleSpaced(rest: string, other: string)
    ensures Visible("#" + rest) == 1 + Visible(rest) && Visible("#" + (" " + rest)) == 1 + Visible(rest)
    ensures Visible("#" + other) == 1 + Visible(other) && Visible("#" + (" " + other)) == 1 + Visible(other)
  {
    assert ("#" + rest)[1..] == rest && ("#" + (" " + rest))[1..] == " " + rest && (" " + rest)[1..] == rest;
    assert ("#" + other)[1..] == other && ("#" + (" " + other))[1..] == " " + other && (" " + other)[1..] == other;
  }
}
