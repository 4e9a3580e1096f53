/** What getnextline (config/makedepend/main.c:552-616) reads of a text in which lines are bare, that is,
    hold only a # and blanks: behind each of them one character is passed over, and never looked at. */
module BareLines {
  import opened Names
  import opened CleanText

  // ---------------------------------------------------------------- the first line of a text

  function Head(c: string): string {
    c[..LineLength(c)]
  }

  predicate Ended(c: string) {
    LineLength(c) < |c|
  }

  function Tail(c: string): (r: string)
    requires Ended(c)
    ensures |r| == |c| - LineLength(c) - 1
  {
    c[LineLength(c) + 1..]
  }

  lemma {:induction false} HeadAndTail(line: string, rest: string)
    requires '\n' !in line
    ensures var c := line + ("\n" + rest); Ended(c) && Head(c) == line && Tail(c) == rest
  {
    FirstLineOf(line, rest);
  }

  lemma {:induction false} LineGoesOn(more: string, c: string)
    requires '\n' !in more
    ensures Ended(more + c) == Ended(c) && Head(more + c) == more + Head(c)
    ensures Ended(c) ==> Tail(more + c) == Tail(c)
    ensures LineLength(more + c) == |more| + LineLength(c)
  {
    if more == [] {
      assert more + c == c;
    } else {
      assert (more + c)[1..] == more[1..] + c;
      LineGoesOn(more[1..], c);
    }
  }

  // ---------------------------------------------------------------- directives and their places

  // A line returned, and how much text is behind it.
  datatype Placed = Placed(line: string, behind: nat)

  function Calls(t: string): seq<Placed>
    decreases |t|
  {
    var r := Call(t);
    if r.Found? then [Placed(r.line, |r.rest|)] + Calls(r.rest) else []
  }

  // The first line of c is a directive: it begins with # and is not bare, unless it is the last and
  // no newline ends it.
  predicate StartsDirective(c: string) {
    Hash(Head(c)) && (Ended(c) ==> !Bare(Head(c)))
  }

  function FirstDirective(c: string): seq<Placed> {
    if StartsDirective(c) then [Placed(Head(c), if Ended(c) then |Tail(c)| else 0)] else []
  }

  /** The directives of a cleaned text, in order and with their places. */
  function Directives(c: string): seq<Placed>
    decreases |c|
  {
    FirstDirective(c) + if Ended(c) then Directives(Tail(c)) else []
  }

  // The text behind the first line of the cleaned text.
  function NextFrom(t: string, comment: bool): (r: string)
    requires Ended(CleanFrom(t, comment))
    ensures |r| < |t|
  {
    t[LineLength(CleanFrom(t, comment)) + 1..]
  }

  function Next(t: string): (r: string)
    requires Ended(Clean(t))
    ensures |r| < |t|
  {
    NextFrom(t, false)
  }

  // The cleaned text as the calls take it: a newline in place of the character behind a bare line,
  // from which on the text is cleaned afresh.
  function Seen(t: string): string
    decreases |t|
  {
    var c := Clean(t);
    if !Ended(c) then c
    else if Bare(Head(c)) && Next(t) != [] then Head(c) + ("\n" + ("\n" + Seen(Next(t)[1..])))
    else Head(c) + ("\n" + Seen(Next(t)))
  }

  // ---------------------------------------------------------------- line by line

  // What happens at the newline that ends a line.
  function AtLineEnd(line: string, rest: string, newlines: nat): Stop {
    if !Hash(line) then Walk(rest, false, [], newlines)
    else if !Bare(line) then Found(line, rest, newlines)
    else if rest == [] then Overrun
    else Walk(rest[1..], false, [], newlines)
  }

  // What the character loop takes at once where no line ends: k characters, what they become, whether
  // a comment goes on, and the newlines passed.
  datatype Stride = Stride(k: nat, more: string, comment: bool, newlines: nat)

  predicate EndsLine(t: string, comment: bool) {
    !comment && t != [] && t[0] == '\n'
  }

  function StrideAt(t: string, comment: bool): (s: Stride)
    requires t != [] && !EndsLine(t, comment)
    ensures 0 < s.k == |s.more| <= |t| && '\n' !in s.more
  {
    if comment then if Closes(t) then Stride(2, "  ", false, 0) else Stride(1, " ", true, NewlineAt(t))
    else if Opens(t) then Stride(2, "  ", true, 0)
    else if Continues(t) then Stride(2, "  ", false, 1)
    else Stride(1, [t[0]], false, 0)
  }

  lemma {:induction false} WalkStride(t: string, comment: bool, line: string, m: nat)
    requires t != [] && !EndsLine(t, comment)
    ensures var s := StrideAt(t, comment);
      Walk(t, comment, line, m) == Walk(t[s.k..], s.comment, line + s.more, m + s.newlines)
  {
  }

  lemma {:induction false} CleanStride(t: string, comment: bool)
    requires t != [] && !EndsLine(t, comment)
    ensures var s := StrideAt(t, comment); CleanFrom(t, comment) == s.more + CleanFrom(t[s.k..], s.comment)
  {
  }

  lemma {:induction false} DropTwice(t: string, i: nat, j: nat)
    ensures i + j <= |t| ==> t[i..][j..] == t[i + j..]
  {
  }

  lemma {:induction false} LineOfStride(t: string, comment: bool)
    requires t != [] && !EndsLine(t, comment)
    ensures var s := StrideAt(t, comment);
      var c, d := CleanFrom(t, comment), CleanFrom(t[s.k..], s.comment);
      && Ended(c) == Ended(d) && c == s.more + d && Head(c) == s.more + Head(d)
      && (Ended(c) ==> Tail(c) == Tail(d) && NextFrom(t, comment) == NextFrom(t[s.k..], s.comment))
  {
    var s := StrideAt(t, comment);
    var d := CleanFrom(t[s.k..], s.comment);
    CleanStride(t, comment);
    LineGoesOn(s.more, d);
    DropTwice(t, s.k, LineLength(d) + 1);
  }

  // What is behind the line is cleaned by itself.
  lemma {:induction false} CleanNext(t: string, comment: bool)
    ensures var c := CleanFrom(t, comment); Ended(c) ==> Tail(c) == Clean(NextFrom(t, comment))
    decreases |t|
  {
    if t != [] && !EndsLine(t, comment) {
      var s := StrideAt(t, comment);
      LineOfStride(t, comment);
      CleanNext(t[s.k..], s.comment);
    }
  }

  // What is left to do when the line has come to its end.
  function Outcome(t: string, comment: bool, line: string, newlines: nat): Stop {
    var c := CleanFrom(t, comment);
    if Ended(c) then AtLineEnd(line + Head(c), NextFrom(t, comment), newlines)
    else if Hash(line + c) then Found(line + c, [], newlines) else Exhausted(newlines)
  }

  // The character loop from inside a line to its end.
  lemma {:induction false} WalkLine(t: string, comment: bool, line: string, m: nat) returns (newlines: nat)
    ensures Walk(t, comment, line, m) == Outcome(t, comment, line, newlines)
    decreases |t|, 1
  {
    if t == [] || EndsLine(t, comment) {
      newlines := LineEnds(t, comment, line, m);
    } else {
      newlines := WalkLineOn(t, comment, line, m);
    }
  }

  lemma {:induction false} WalkLineOn(t: string, comment: bool, line: string, m: nat) returns (newlines: nat)
    requires t != [] && !EndsLine(t, comment)
    ensures Walk(t, comment, line, m) == Outcome(t, comment, line, newlines)
    decreases |t|, 0
  {
    var s := StrideAt(t, comment);
    WalkStride(t, comment, line, m);
    newlines := WalkLine(t[s.k..], s.comment, line + s.more, m + s.newlines);
    OutcomeStride(t, comment, line, newlines);
  }

  lemma {:induction false} OutcomeStride(t: string, comment: bool, line: string, newlines: nat)
    requires t != [] && !EndsLine(t, comment)
    ensures var s := StrideAt(t, comment);
      Outcome(t, comment, line, newlines) == Outcome(t[s.k..], s.comment, line + s.more, newlines)
  {
    var s := StrideAt(t, comment);
    var d := CleanFrom(t[s.k..], s.comment);
    LineOfStride(t, comment);
    Regroup(line, s.more, d);
    Regroup(line, s.more, Head(d));
  }

  lemma {:induction false} LineEnds(t: string, comment: bool, line: string, m: nat) returns (newlines: nat)
    requires t == [] || EndsLine(t, comment)
    ensures Walk(t, comment, line, m) == Outcome(t, comment, line, newlines)
  {
    newlines := if t == [] then m else m + 1;
    assert line + [] == line;
    assert |t| > 1 ==> t[1..][1..] == t[2..];
  }

  // One call, seen from the first line.
  lemma {:induction false} CallByLine(t: string)
    ensures var c := Clean(t);
      SameBut(Call(t),
              if Ended(c) then AtLineEnd(Head(c), Next(t), 0) else if Hash(c) then Found(c, [], 0) else Exhausted(0))
  {
    var m := WalkLine(t, false, [], 0);
    var c := Clean(t);
    assert [] + Head(c) == Head(c) && [] + c == c;
    if Ended(c) { LineEndCounts(Head(c), Next(t), m); }
  }

  lemma {:induction false} LineEndCounts(line: string, rest: string, m: nat)
    ensures SameBut(AtLineEnd(line, rest, m), AtLineEnd(line, rest, 0))
  {
    CounterIsIndependent(rest, false, [], m, 0);
    if rest != [] { CounterIsIndependent(rest[1..], false, [], m, 0); }
  }

  lemma {:induction false} SameCalls(t: string, u: string)
    requires SameBut(Call(t), Call(u))
    ensures Calls(t) == Calls(u) && Steady(t) == Steady(u)
  {
  }

  // There is a character to pass over behind each bare line.
  lemma {:induction false} SteadyByLine(t: string)
    requires Ended(Clean(t))
    ensures Steady(t) ==
      if Bare(Head(Clean(t))) then Next(t) != [] && Steady(Next(t)[1..]) else Steady(Next(t))
  {
    var line, u := Head(Clean(t)), Next(t);
    CallByLine(t);
    if !Hash(line) {
      SameCalls(t, u);
    } else if Bare(line) && u != [] {
      SameCalls(t, u[1..]);
    }
  }

  lemma {:induction false} CallsByLine(t: string)
    requires Ended(Clean(t))
    ensures var u := Next(t);
      Calls(t) == FirstDirective(Clean(t)) +
        if !Bare(Head(Clean(t))) then Calls(u) else if u != [] then Calls(u[1..]) else []
  {
    var c, u := Clean(t), Next(t);
    CallByLine(t);
    CleanNext(t, false);
    if !Hash(Head(c)) {
      SameCalls(t, u);
      assert [] + Calls(u) == Calls(u);
    } else if Bare(Head(c)) && u != [] {
      SameCalls(t, u[1..]);
      assert [] + Calls(u[1..]) == Calls(u[1..]);
    }
  }

  lemma {:induction false} EmptyLine(c: string)
    ensures Directives("\n" + c) == Directives(c)
  {
    assert [] + ("\n" + c) == "\n" + c;
    HeadAndTail([], c);
    NoDirectiveFirst("\n" + c);
  }

  lemma {:induction false} SeenByLine(t: string)
    requires Ended(Clean(t))
    ensures var c, u := Clean(t), Next(t);
      Directives(Seen(t)) == FirstDirective(c) +
        if Bare(Head(c)) && u != [] then Directives(Seen(u[1..])) else Directives(Seen(u))
    ensures Head(Seen(t)) == Head(Clean(t)) && Ended(Seen(t)) && FirstDirective(Seen(t)) == FirstDirective(Clean(t))
  {
    var c, u := Clean(t), Next(t);
    var rest := if Bare(Head(c)) && u != [] then "\n" + Seen(u[1..]) else Seen(u);
    SeenLength(t);
    assert Seen(t) == Head(c) + ("\n" + rest);
    SeenFirstLine(t, rest);
    if Bare(Head(c)) && u != [] { EmptyLine(Seen(u[1..])); }
  }

  lemma {:induction false} SeenFirstLine(t: string, rest: string)
    requires Ended(Clean(t)) && Seen(t) == Head(Clean(t)) + ("\n" + rest) && |Seen(t)| == |t|
    ensures Head(Seen(t)) == Head(Clean(t)) && Ended(Seen(t)) && Tail(Seen(t)) == rest
    ensures FirstDirective(Seen(t)) == FirstDirective(Clean(t))
  {
    HeadAndTail(Head(Clean(t)), rest);
  }

  lemma {:induction false} SeenLength(t: string)
    ensures |Seen(t)| == |t|
    decreases |t|
  {
    if Ended(Clean(t)) {
      SeenLength(Next(t));
      if Next(t) != [] { SeenLength(Next(t)[1..]); }
    }
  }

  /** On any text, bare lines in it or not, as long as the last of them is not at the very end: the calls
      return exactly the directives of the text as seen. */
  lemma {:induction false} CallsAreTheDirectivesSeen(t: string)
    requires Steady(t)
    ensures Calls(t) == Directives(Seen(t))
    decreases |t|
  {
    if Ended(Clean(t)) {
      SteadyByLine(t);
      CallsByLine(t);
      SeenByLine(t);
      CallsAreTheDirectivesSeen(if Bare(Head(Clean(t))) then Next(t)[1..] else Next(t));
    } else {
      LastLine(t);
    }
  }

  lemma {:induction false} LastLine(t: string)
    requires !Ended(Clean(t))
    ensures Calls(t) == FirstDirective(Clean(t)) == Directives(Clean(t))
  {
    var c := Clean(t);
    CallByLine(t);
    assert Head(c) == c && Calls([]) == [];
    assert FirstDirective(c) + [] == FirstDirective(c);
  }

  // ---------------------------------------------------------------- when that is right

  /** The lines returned, and the places they are returned from, are the directives of the cleaned text. */
  predicate Right(t: string) {
    Calls(t) == Directives(Clean(t))
  }

  // Where the calls go on behind the first line.
  function BehindLine(t: string): (r: string)
    ensures t != [] ==> |r| < |t|
  {
    var c := Clean(t);
    if !Ended(c) then [] else if Bare(Head(c)) && Next(t) != [] then Next(t)[1..] else Next(t)
  }

  // The cleaned text has a line beginning at x, and the calls at y, both of them ends of the same text.
  // They come to a line at the same place again, and neither comes by a directive before.
  predicate Rejoins(x: string, y: string)
    decreases |x| + |y|, 1
  {
    if |x| == |y| then StaysRight(x)
    else if |x| > |y| then
      !StartsDirective(Clean(x)) && Rejoins(if Ended(Clean(x)) then Next(x) else [], y)
    else !StartsDirective(Clean(y)) && Rejoins(x, BehindLine(y))
  }

  // So it is behind every bare line, from one character on and from the next.
  predicate StaysRight(t: string)
    decreases 2 * |t|, 0
  {
    Ended(Clean(t)) ==>
      if Bare(Head(Clean(t))) && Next(t) != [] then Rejoins(Next(t), Next(t)[1..]) else StaysRight(Next(t))
  }

  // u is what follows a bare line. Its first character can be passed over: it is a newline; or the
  // first line of u is no directive and would not be one without it. Where the character is the
  // backslash of a continuation, the newline behind it ends a line, and the next line counts.
  predicate Harmless(u: string) {
    u != [] &&
    (u[0] == '\n'
     || (!StartsDirective(Clean(u)) && !StartsDirective(if Continues(u) then Clean(u[2..]) else Clean(u[1..]))))
  }

  lemma {:induction false} CleanContinuation(u: string)
    requires Continues(u)
    ensures Clean(u) == "  " + Clean(u[2..]) && Clean(u[1..]) == "\n" + Clean(u[2..])
  {
    assert u[1..][1..] == u[2..];
  }

  lemma {:induction false} CleanCharacter(u: string)
    requires u != [] && !Opens(u) && !Continues(u)
    ensures Clean(u) == [u[0]] + Clean(u[1..])
  {
  }

  // Characters in front of a cleaned text whose first line then is no directive.
  lemma {:induction false} WithCharacters(more: string, c: string)
    requires '\n' !in more && !StartsDirective(more + c)
    ensures Directives(more + c) == if Ended(c) then Directives(Tail(c)) else []
  {
    LineGoesOn(more, c);
    assert Ended(c) ==> [] + Directives(Tail(c)) == Directives(Tail(c));
  }

  lemma {:induction false} BlanksStartNothing(c: string)
    ensures !StartsDirective("  " + c)
  {
    LineGoesOn("  ", c);
  }

  lemma {:induction false} NoDirectiveFirst(c: string)
    requires !StartsDirective(c)
    ensures Directives(c) == if Ended(c) then Directives(Tail(c)) else []
  {
    assert Ended(c) ==> [] + Directives(Tail(c)) == Directives(Tail(c));
  }

  lemma {:induction false} HarmlessKeepsDirectives(u: string)
    requires Harmless(u) && !Opens(u)
    ensures Directives(Clean(u)) == Directives(Clean(u[1..]))
  {
    if Continues(u) {
      HarmlessContinuation(u);
    } else {
      CleanCharacter(u);
      if u[0] == '\n' {
        EmptyLine(Clean(u[1..]));
      } else {
        WithCharacters([u[0]], Clean(u[1..]));
        NoDirectiveFirst(Clean(u[1..]));
      }
    }
  }

  lemma {:induction false} HarmlessContinuation(u: string)
    requires Continues(u) && !StartsDirective(Clean(u[2..]))
    ensures Directives(Clean(u)) == Directives(Clean(u[1..]))
  {
    var d := Clean(u[2..]);
    CleanContinuation(u);
    EmptyLine(d);
    BlanksStartNothing(d);
    WithCharacters("  ", d);
    NoDirectiveFirst(d);
  }

  // Every directive fits into the text, with its newline unless it is all of it.
  lemma {:induction false} PlacesFit(c: string, p: Placed)
    requires p in Directives(c)
    ensures |p.line| + p.behind < |c| || (p == Placed(c, 0) && !Ended(c))
    decreases |c|
  {
    if p !in FirstDirective(c) {
      PlacesFit(Tail(c), p);
    } else if !Ended(c) {
      assert Head(c) == c;
    }
  }

  lemma {:induction false} SeenStartsAlike(t: string)
    ensures Ended(Seen(t)) == Ended(Clean(t)) && FirstDirective(Seen(t)) == FirstDirective(Clean(t))
    ensures |Seen(t)| == |t|
  {
    SeenLength(t);
    if Ended(Clean(t)) { SeenByLine(t); }
  }

  // A directive that begins with the character passed over is not returned from its place.
  lemma {:induction false} LostDirective(u: string)
    requires u != [] && u[0] != '\n' && !Opens(u) && !Continues(u) && StartsDirective(Clean(u))
    ensures Directives(Seen(u[1..])) != Directives(Clean(u))
  {
    var c, v := Clean(u), u[1..];
    var p := FirstDirective(c)[0];
    assert Directives(c)[0] == p;
    CleanCharacter(u);
    LineGoesOn([u[0]], Clean(v));
    SeenStartsAlike(v);
    if p in Directives(Seen(v)) { PlacesFit(Seen(v), p); }
  }

  // A directive that begins behind it is returned, though none begins there.
  lemma {:induction false} FirstIsTooMany(v: string)
    requires StartsDirective(Clean(v))
    ensures Directives(Seen(v)) != if Ended(Clean(v)) then Directives(Tail(Clean(v))) else []
  {
    var d := Clean(v);
    SeenStartsAlike(v);
    var p := FirstDirective(d)[0];
    assert Directives(Seen(v))[0] == p;
    if Ended(d) && p in Directives(Tail(d)) { PlacesFit(Tail(d), p); }
  }

  lemma {:induction false} InventedDirective(u: string)
    requires u != [] && !Opens(u) && !Continues(u) && u[0] != '\n'
    requires !StartsDirective(Clean(u)) && StartsDirective(Clean(u[1..]))
    ensures Directives(Seen(u[1..])) != Directives(Clean(u))
  {
    CleanCharacter(u);
    WithCharacters([u[0]], Clean(u[1..]));
    FirstIsTooMany(u[1..]);
  }

  lemma {:induction false} InventedByContinuation(u: string)
    requires Continues(u) && StartsDirective(Clean(u[2..]))
    ensures Directives(Seen(u[1..])) != Directives(Clean(u))
  {
    CleanContinuation(u);
    BlanksStartNothing(Clean(u[2..]));
    WithCharacters("  ", Clean(u[2..]));
    SeenBehindNewline(u[1..], u[2..]);
    FirstIsTooMany(u[2..]);
  }

  lemma {:induction false} SeenBehindNewline(t: string, v: string)
    requires t == "\n" + v
    ensures Directives(Seen(t)) == Directives(Seen(v))
  {
    assert t[1..] == v && Clean(t) == "\n" + Clean(v);
    assert LineLength(Clean(t)) == 0;
    SeenByLine(t);
    assert [] + Directives(Seen(v)) == Directives(Seen(v));
  }

  /** Passing over the first character of u: right in what follows exactly when it is harmless here and
      what is seen behind it is right. */
  lemma {:induction false} RightBehindBareLine(u: string)
    requires u != [] && !Opens(u)
    ensures Directives(Seen(u[1..])) == Directives(Clean(u)) <==>
      Harmless(u) && Directives(Seen(u[1..])) == Directives(Clean(u[1..]))
  {
    if Harmless(u) {
      HarmlessKeepsDirectives(u);
    } else if Continues(u) {
      CleanContinuation(u);
      BlanksStartNothing(Clean(u[2..]));
      InventedByContinuation(u);
    } else if StartsDirective(Clean(u)) {
      LostDirective(u);
    } else {
      InventedDirective(u);
    }
  }

  lemma {:induction false} PrefixCancels(a: seq<Placed>, b: seq<Placed>, c: seq<Placed>)
    ensures a + b == a + c <==> b == c
  {
    if a + b == a + c { assert b == (a + b)[|a|..] && c == (a + c)[|a|..]; }
  }

  // y is an end of x.
  predicate EndOf(x: string, y: string) {
    |y| <= |x| && y == x[|x| - |y|..]
  }

  lemma {:induction false} EndOfEnd(x: string, y: string, i: nat)
    requires EndOf(x, y)
    ensures i <= |y| ==> EndOf(x, y[i..])
    ensures i <= |x| ==> EndOf(x[i..], y) || EndOf(y, x[i..])
  {
    assert i <= |x| && |y| <= |x| - i ==> x[i..][|x| - i - |y|..] == x[|x| - |y|..];
    assert i <= |x| && |y| > |x| - i ==> y[|y| - (|x| - i)..] == x[i..];
  }

  // A directive with which a longer text begins is none of a text that is an end of it.
  lemma {:induction false} NotFurtherOn(x: string, y: string, c: string)
    requires EndOf(x, y) && |y| < |x| && StartsDirective(Clean(x))
    requires |c| == |y| && (!Ended(c) ==> c == Clean(y))
    ensures FirstDirective(Clean(x))[0] !in Directives(c)
  {
    var p := FirstDirective(Clean(x))[0];
    if p in Directives(c) { PlacesFit(c, p); }
  }

  lemma {:induction false} SeenFitsClean(t: string)
    ensures |Seen(t)| == |t| && (!Ended(Seen(t)) ==> Seen(t) == Clean(t))
  {
    SeenStartsAlike(t);
  }

  lemma {:induction false} SeenBehindLine(t: string)
    requires !StartsDirective(Clean(t))
    ensures Directives(Seen(t)) == Directives(Seen(BehindLine(t)))
  {
    if Ended(Clean(t)) {
      SeenByLine(t);
    } else {
      NoDirectiveFirst(Clean(t));
    }
  }

  lemma {:induction false} CleanBehindLine(t: string)
    requires !StartsDirective(Clean(t))
    ensures Directives(Clean(t)) == Directives(Clean(if Ended(Clean(t)) then Next(t) else []))
  {
    NoDirectiveFirst(Clean(t));
    CleanNext(t, false);
  }

  lemma {:induction false} SameExactlyWhenRejoined(x: string, y: string)
    requires EndOf(x, y) || EndOf(y, x)
    ensures Directives(Seen(y)) == Directives(Clean(x)) <==> Rejoins(x, y)
    decreases |x| + |y|, 1
  {
    if |x| == |y| {
      assert x == y;
      SeenIsRightExactlyWhen(x);
    } else if |x| > |y| {
      if StartsDirective(Clean(x)) {
        SeenFitsClean(y);
        NotFurtherOn(x, y, Seen(y));
        DirectiveIsFirst(Clean(x));
      } else {
        CleanBehindLine(x);
        CleanLineIsEnd(x, y);
        SameExactlyWhenRejoined(if Ended(Clean(x)) then Next(x) else [], y);
      }
    } else {
      if StartsDirective(Clean(y)) {
        SeenStartsAlike(y);
        NotFurtherOn(y, x, Clean(x));
        DirectiveIsFirst(Seen(y));
      } else {
        SeenBehindLine(y);
        SeenLineIsEnd(x, y);
        SameExactlyWhenRejoined(x, BehindLine(y));
      }
    }
  }

  lemma {:induction false} DirectiveIsFirst(c: string)
    requires FirstDirective(c) != []
    ensures FirstDirective(c)[0] in Directives(c)
  {
    assert Directives(c)[0] == FirstDirective(c)[0];
  }

  lemma {:induction false} CleanLineIsEnd(x: string, y: string)
    requires EndOf(x, y)
    ensures var r := if Ended(Clean(x)) then Next(x) else []; EndOf(r, y) || EndOf(y, r)
  {
    if Ended(Clean(x)) { EndOfEnd(x, y, LineLength(Clean(x)) + 1); }
  }

  lemma {:induction false} SeenLineIsEnd(x: string, y: string)
    requires EndOf(y, x)
    ensures EndOf(x, BehindLine(y)) || EndOf(BehindLine(y), x)
  {
    BehindLineIsEnd(y);
    EndOfEnd(y, x, |y| - |BehindLine(y)|);
  }

  lemma {:induction false} BehindLineIsEnd(t: string)
    ensures |BehindLine(t)| <= |t| && BehindLine(t) == t[|t| - |BehindLine(t)|..]
  {
  }

  lemma {:induction false} SeenIsRightExactlyWhen(t: string)
    ensures Directives(Seen(t)) == Directives(Clean(t)) <==> StaysRight(t)
    decreases 2 * |t|, 0
  {
    var c := Clean(t);
    if Ended(c) {
      var u := Next(t);
      SeenByLine(t);
      CleanNext(t, false);
      if Bare(Head(c)) && u != [] {
        SameExactlyWhenRejoined(u, u[1..]);
        PrefixCancels(FirstDirective(c), Directives(Seen(u[1..])), Directives(Clean(u)));
      } else {
        SeenIsRightExactlyWhen(u);
        PrefixCancels(FirstDirective(c), Directives(Seen(u)), Directives(Clean(u)));
      }
    }
  }

  /** Any number of bare lines, anywhere in any text: the calls return the directives of the cleaned text, from
      their places, if and only if behind each bare line the calls come to the beginning of a line of the
      cleaned text again and there is no directive for either before. */
  lemma {:induction false} RightExactlyWhenRejoined(t: string)
    requires Steady(t)
    ensures Right(t) <==> StaysRight(t)
  {
    CallsAreTheDirectivesSeen(t);
    SeenIsRightExactlyWhen(t);
  }

  /** Where no comment opens behind the bare line, the character passed over decides. */
  lemma {:induction false} RejoinsExactlyWhenHarmless(u: string)
    requires u != [] && !Opens(u)
    ensures Rejoins(u, u[1..]) <==> Harmless(u) && StaysRight(u[1..])
  {
    RightBehindBareLine(u);
    SameExactlyWhenRejoined(u, u[1..]);
    SeenIsRightExactlyWhen(u[1..]);
  }

  // For instance a directive right behind a first bare line is lost.
  lemma {:induction false} DirectiveIsLost(t: string)
    requires Hash(t) && StartsDirective(Clean(t)) && Steady("#\n" + t)
    ensures !Right("#\n" + t)
  {
    var s := "#\n" + t;
    assert s[1..] == "\n" + t && s[1..][1..] == t;
    assert Clean(s) == "#" + ("\n" + Clean(t));
    HeadAndTail("#", Clean(t));
    assert Next(s) == t;
    CallsAreTheDirectivesSeen(s);
    SeenByLine(s);
    LostDirective(t);
    PrefixCancels([], Directives(Seen(t[1..])), Directives(Clean(t)));
  }
}
