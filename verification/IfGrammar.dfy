/** Exactly which texts the #if evaluator reads to the end: the phrases, grouped for nesting to the right. To
    every text it accepts belongs such a phrase, and the value is that of the phrase's tree. */
module IfGrammar {
  import opened Names
  import opened IfParser
  import opened IfPrinter

  // cp has been read as blanks and a phrase of level k, in front of t.
  ghost predicate ReadAs<V>(g: Meaning<V>, cp: string, k: nat, b: Blanks, p: Phrase, t: string)
    requires k <= 11
  {
    && cp == b + Show(p, t) && Accepted(p, t) && Grouped(p, ToTheRight) && Height(p) <= k
    && IsRead(ParseLevel(g, cp, k), k, t, Eval(g, Tree(p)))
  }

  // ---------------------------------------------------------------- the parts of a text

  lemma {:induction false} HeadAndTail(s: string, c: char)
    requires s != [] && s[0] == c
    ensures s == [c] + s[1..]
  {
  }

  lemma {:induction false} Nest(s: string, b: string, x: string, name: string, y: string, b1: string, z: string)
    requires s == b + x && x == name + y && y == b1 + z
    ensures s == b + (name + (b1 + z))
  {
  }

  function OneMoreBlank(c: char, b: Blanks): Blanks
    requires c == ' ' || '\t' <= c <= '\r'
  {
    [c] + b
  }

  function OneMoreSuffix(c: char, q: Qualifiers): Qualifiers
    requires Suffix(c)
  {
    [c] + q
  }

  lemma {:induction false} LeadingBlanksOf(cp: string) returns (b: Blanks)
    ensures cp == b + SkipSpace(cp)
  {
    b := [];
    if cp != [] && IsSpace(cp[0]) {
      var more := LeadingBlanksOf(cp[1..]);
      b := OneMoreBlank(cp[0], more);
      HeadAndTail(cp, cp[0]);
    }
  }

  lemma {:induction false} SuffixesOf(cp: string) returns (q: Qualifiers)
    ensures cp == q + SkipQualifiers(cp)
  {
    q := [];
    if cp != [] && IsQualifier(cp[0]) {
      var more := SuffixesOf(cp[1..]);
      q := OneMoreSuffix(cp[0], more);
      HeadAndTail(cp, cp[0]);
    }
  }

  lemma {:induction false} VariableAt(cp: string) returns (b: Blanks)
    requires ParseVariable(cp).Done?
    ensures var r := ParseVariable(cp);
      && cp == b + SkipSpace(cp) && SkipSpace(cp) == r.val + r.cp && IsName(r.val) && !NameChar(At(r.cp, 0))
  {
    b := LeadingBlanksOf(cp);
    WordAt(SkipSpace(cp));
  }

  // A name between blanks, in front of something else.
  lemma {:induction false} NameAt(cp: string) returns (b: Blanks, b1: Blanks)
    requires ParseVariable(cp).Done?
    ensures var v := ParseVariable(cp);
      && cp == b + (v.val + (b1 + SkipSpace(v.cp))) && IsName(v.val)
      && (b1 == [] ==> !NameChar(At(SkipSpace(v.cp), 0)))
  {
    var v := ParseVariable(cp);
    b := VariableAt(cp);
    b1 := LeadingBlanksOf(v.cp);
    Nest(cp, b, SkipSpace(cp), v.val, v.cp, b1, SkipSpace(v.cp));
    if b1 == [] { NoBlanks(v.cp); }
  }

  lemma {:induction false} NoBlanks(cp: string)
    requires cp == [] + SkipSpace(cp)
    ensures cp == SkipSpace(cp)
  {
  }

  lemma {:induction false} ListAt(cp: string) returns (b: Blanks, a: Answers, t: string)
    requires cp != [] && ParseList(cp).Some?
    ensures cp[1..] == b + ShowAnswers(a, t) && ParseList(cp) == Some([')'] + t) && AreAccepted(a)
    decreases |cp|
  {
    var v := ParseVariable(cp[1..]);
    var e := SkipSpace(v.cp);
    var b1;
    b, b1 := NameAt(cp[1..]);
    HeadAndTail(e, e[0]);
    if e[0] == ')' {
      a, t := Last(v.val, b1), e[1..];
    } else {
      var b2, rest;
      b2, rest, t := ListAt(e);
      a := More(v.val, b1, e[0], b2, rest);
      MoreIsAccepted(v.val, b1, e[0], b2, rest);
    }
  }

  lemma {:induction false} MoreIsAccepted(name: string, b1: Blanks, separator: char, b2: Blanks, rest: Answers)
    requires IsName(name) && !IsSpace(separator) && separator != ')' && (b1 == [] ==> !NameChar(separator))
    requires AreAccepted(rest)
    ensures AreAccepted(More(name, b1, separator, b2, rest))
  {
  }

  // ---------------------------------------------------------------- every accepted text is a phrase

  lemma {:induction false} AssertionAt<V>(g: Meaning<V>, at: string) returns (p: Phrase, t: string)
    requires at != [] && at[0] == '#' && ParseAssertion(g, at[1..]).Done?
    ensures at == Show(p, t) && p.Query? && IsName(p.question) && AreAccepted(p.answers)
    ensures ParseAssertion(g, at[1..]) == Done(t, g.one)
  {
    var v := ParseVariable(at[1..]);
    var open := SkipSpace(v.cp);
    var b1, b2 := NameAt(at[1..]);
    var b3, a;
    b3, a, t := ListAt(open);
    HeadAndTail(at, '#');
    HeadAndTail(open, '(');
    p := Query(b1, v.val, b2, b3, a);
    QueryShown(p, open, t);
    BehindClosing(t);
  }

  lemma {:induction false} QueryShown(p: Phrase, open: string, t: string)
    requires p.Query? && open == "(" + (p.b3 + ShowAnswers(p.answers, t))
    ensures Show(p, t) == "#" + (p.b1 + (p.question + (p.b2 + open)))
  {
  }

  lemma {:induction false} BehindClosing(t: string)
    ensures ([')'] + t)[1..] == t
  {
  }

  lemma {:induction false} NumberAt<V>(g: Meaning<V>, at: string) returns (p: Phrase, t: string)
    requires at != [] && IsDigit(at[0])
    ensures at == Show(p, t) && p.Literal? && IsLiteral(p.digits)
    ensures ParseWord(g, at) == Done(t, Eval(g, Tree(p)))
  {
    var n := NumberLength(at);
    LongestLiteralIsRead(at);
    var q := SuffixesOf(at[n..]);
    p, t := Literal(at[..n], q), SkipQualifiers(at[n..]);
    assert at == at[..n] + at[n..];
    DigitIsNoOperator(at);
  }

  lemma {:induction false} DigitIsNoOperator(at: string)
    requires at != [] && IsDigit(at[0])
    ensures !DefinedAt(at)
  {
    assert |at| >= 7 ==> at[..7][0] == at[0] && "defined"[0] == 'd';
  }

  lemma {:induction false} IdentAt<V>(g: Meaning<V>, at: string) returns (p: Phrase, t: string)
    requires at != [] && IsVarFirstLetter(at[0]) && !DefinedAt(at)
    ensures at == Show(p, t) && p.Ident? && IsName(p.name) && !Captured(p.name)
    ensures ParseWord(g, at) == Done(t, Eval(g, Tree(p)))
  {
    var name := [at[0]] + Word(at[1..]);
    WordAt(at);
    p, t := Ident(name), at[|name|..];
    CaptureIsLocal(name, t);
    CapturedExactly(name);
  }

  lemma {:induction false} DefinedOperandAt<V>(g: Meaning<V>, at: string) returns (p: Phrase, t: string)
    requires DefinedAt(at) && ParseDefined(g, at[7..]).Done?
    ensures at == Show(p, t) && (p.DefinedIn? || p.DefinedBare?) && Accepted(p, t)
    ensures var r := ParseDefined(g, at[7..]); r.val == Eval(g, Tree(p)) && SkipSpace(r.cp) == SkipSpace(t)
  {
    var open := SkipSpace(at[7..]);
    if open != [] && open[0] == '(' {
      p, t := OperandInParentheses(g, at);
    } else {
      p, t := BareOperand(g, at);
    }
  }

  lemma {:induction false} BehindDefined(at: string) returns (b1: Blanks)
    requires DefinedAt(at)
    ensures at == "defined" + (b1 + SkipSpace(at[7..])) && at[7..] == b1 + SkipSpace(at[7..])
    ensures b1 == [] ==> !IsAlnum(At(SkipSpace(at[7..]), 0))
  {
    b1 := LeadingBlanksOf(at[7..]);
    assert at == at[..7] + at[7..];
    if b1 == [] { NoBlanks(at[7..]); }
    assert At(at[7..], 0) == At(at, 7);
  }

  lemma {:induction false} OperandInParentheses<V>(g: Meaning<V>, at: string) returns (p: Phrase, t: string)
    requires DefinedAt(at) && ParseDefined(g, at[7..]).Done?
    requires SkipSpace(at[7..]) != [] && SkipSpace(at[7..])[0] == '('
    ensures at == Show(p, t) && p.DefinedIn? && Accepted(p, t) && Eval(g, Tree(p)) == g.defined(p.name)
    ensures ParseDefined(g, at[7..]) == Done(t, g.defined(p.name))
  {
    var b1 := BehindDefined(at);
    var open := SkipSpace(at[7..]);
    var v := ParseVariable(open[1..]);
    var e := SkipSpace(v.cp);
    var b2, b3 := NameAt(open[1..]);
    HeadAndTail(open, '(');
    HeadAndTail(e, ')');
    p, t := DefinedIn(b1, b2, v.val, b3), e[1..];
  }

  lemma {:induction false} BareOperand<V>(g: Meaning<V>, at: string) returns (p: Phrase, t: string)
    requires DefinedAt(at) && ParseDefined(g, at[7..]).Done?
    requires SkipSpace(at[7..]) == [] || SkipSpace(at[7..])[0] != '('
    ensures at == Show(p, t) && p.DefinedBare? && Accepted(p, t) && Eval(g, Tree(p)) == g.defined(p.name)
    ensures var r := ParseDefined(g, at[7..]);
      r == Done(SkipSpace(t), g.defined(p.name)) && SkipSpace(r.cp) == SkipSpace(t)
  {
    var b1 := BehindDefined(at);
    var open := SkipSpace(at[7..]);
    var v := ParseVariable(open);
    var none := VariableAt(open);
    assert SkipSpace(open) == open;
    p, t := DefinedBare(b1, v.val), v.cp;
    assert open[0] == v.val[0];
  }

  // ---------------------------------------------------------------- operands

  // An operand has been read, b being the blanks in front of it.
  ghost predicate Operand<V>(g: Meaning<V>, cp: string, b: Blanks, p: Phrase, t: string) {
    && cp == b + Show(p, t) && Accepted(p, t) && Grouped(p, ToTheRight) && Height(p) == 0
    && IsRead(ParseValue(g, cp), 0, t, Eval(g, Tree(p)))
  }

  lemma {:induction false} WordOperand<V>(g: Meaning<V>, at: string) returns (p: Phrase, t: string)
    requires at != [] && ParseWord(g, at).Done?
    ensures at == Show(p, t) && Accepted(p, t) && IsAtom(p)
    ensures IsRead(ParseWord(g, at), 0, t, Eval(g, Tree(p)))
  {
    if DefinedAt(at) {
      p, t := DefinedOperandAt(g, at);
    } else if IsDigit(at[0]) {
      p, t := NumberAt(g, at);
    } else {
      p, t := IdentAt(g, at);
    }
  }

  // What an operand that has operands of its own begins with.
  predicate OpensOperand(c: char) {
    c == '(' || c == '!' || c == '-' || c == '~'
  }

  lemma {:induction false} IsOperand<V>(g: Meaning<V>, cp: string, b: Blanks, p: Phrase, t: string)
    requires cp == b + SkipSpace(cp) && SkipSpace(cp) == Show(p, t) && Accepted(p, t) && (IsAtom(p) || p.Nothing?)
    requires IsRead(ParseValue(g, cp), 0, t, Eval(g, Tree(p)))
    ensures Operand(g, cp, b, p, t)
  {
  }

  lemma {:induction false} AssertionOperand<V>(g: Meaning<V>, cp: string) returns (p: Phrase, t: string)
    requires ParseValue(g, cp).Done? && SkipSpace(cp) != [] && SkipSpace(cp)[0] == '#'
    ensures SkipSpace(cp) == Show(p, t) && Accepted(p, t) && IsAtom(p)
    ensures IsRead(ParseValue(g, cp), 0, t, Eval(g, Tree(p)))
  {
    ValueBehindHash(g, cp);
    p, t := AssertionAt(g, SkipSpace(cp));
    ValueOfQuery(g, p);
  }

  lemma {:induction false} ValueBehindHash<V>(g: Meaning<V>, cp: string)
    requires SkipSpace(cp) != [] && SkipSpace(cp)[0] == '#'
    ensures ParseValue(g, cp) == ParseAssertion(g, SkipSpace(cp)[1..])
  {
    var b := LeadingBlanksOf(cp);
    LeadingBlanks(g, b, SkipSpace(cp), 0);
    ValueOfAssertion(g, SkipSpace(cp));
  }

  lemma {:induction false} ValueOfQuery<V>(g: Meaning<V>, p: Phrase)
    requires p.Query?
    ensures Eval(g, Tree(p)) == g.one
  {
  }

  // An operand without operands of its own.
  lemma {:induction false} AtomOperand<V>(g: Meaning<V>, cp: string) returns (b: Blanks, p: Phrase, t: string)
    requires ParseValue(g, cp).Done?
    requires SkipSpace(cp) == [] || !OpensOperand(SkipSpace(cp)[0])
    ensures Operand(g, cp, b, p, t)
  {
    b := LeadingBlanksOf(cp);
    var at := SkipSpace(cp);
    if at == [] {
      p, t := Nothing, [];
    } else if at[0] == '#' {
      p, t := AssertionOperand(g, cp);
    } else {
      assert ParseValue(g, cp) == ParseWord(g, at);
      p, t := WordOperand(g, at);
    }
    IsOperand(g, cp, b, p, t);
  }

  lemma {:induction false} PrefixStands(at: string, op: Unary, b1: Blanks, arg: Phrase, t: string)
    requires at == UnaryText(op) + (b1 + Show(arg, t))
    requires Accepted(arg, t) && Grouped(arg, ToTheRight) && Height(arg) == 0
    ensures var p := Prefix(op, b1, arg);
      at == Show(p, t) && Accepted(p, t) && Grouped(p, ToTheRight) && Height(p) == 0
  {
  }

  lemma {:induction false} ValueBehindSign<V>(g: Meaning<V>, cp: string, op: Unary)
    requires var at := SkipSpace(cp); at != [] && [at[0]] == UnaryText(op)
    ensures ParseValue(g, cp) == ApplyUnary(g, op, ParseValue(g, SkipSpace(cp)[1..]))
  {
  }

  lemma {:induction false} ValueOfPrefix<V>(g: Meaning<V>, op: Unary, b1: Blanks, arg: Phrase)
    ensures Eval(g, Tree(Prefix(op, b1, arg))) == g.unary(op, Eval(g, Tree(arg)))
  {
  }

  lemma {:induction false} PrefixOperand<V>(g: Meaning<V>, cp: string, op: Unary, b: Blanks, b1: Blanks, arg: Phrase,
                                            t: string)
    requires cp == b + SkipSpace(cp) && SkipSpace(cp) != [] && [SkipSpace(cp)[0]] == UnaryText(op)
    requires Operand(g, SkipSpace(cp)[1..], b1, arg, t) && ParseValue(g, cp).Done?
    ensures Operand(g, cp, b, Prefix(op, b1, arg), t)
  {
    HeadAndTail(SkipSpace(cp), SkipSpace(cp)[0]);
    PrefixStands(SkipSpace(cp), op, b1, arg, t);
    ValueBehindSign(g, cp, op);
    ValueOfPrefix(g, op, b1, arg);
  }

  lemma {:induction false} ValueIsOperand<V>(g: Meaning<V>, cp: string) returns (b: Blanks, p: Phrase, t: string)
    requires ParseValue(g, cp).Done?
    ensures Operand(g, cp, b, p, t)
    decreases |cp|, 1
  {
    var at := SkipSpace(cp);
    if at == [] || !OpensOperand(at[0]) {
      b, p, t := AtomOperand(g, cp);
    } else if at[0] == '(' {
      b, p, t := InParentheses(g, cp);
    } else {
      var op := if at[0] == '!' then Not else if at[0] == '-' then Negate else Complement;
      b := LeadingBlanksOf(cp);
      ValueBehindSign(g, cp, op);
      var b1, arg;
      b1, arg, t := ValueIsOperand(g, at[1..]);
      PrefixOperand(g, cp, op, b, b1, arg, t);
      p := Prefix(op, b1, arg);
    }
  }

  lemma {:induction false} ParenStands(at: string, b1: Blanks, inner: Phrase, t1: string, b2: Blanks, t: string)
    requires at == "(" + (b1 + Show(inner, t1)) && t1 == b2 + (")" + t)
    requires Accepted(inner, t1) && Grouped(inner, ToTheRight)
    ensures var p := Paren(b1, inner, b2);
      at == Show(p, t) && Accepted(p, t) && Grouped(p, ToTheRight) && Height(p) == 0
  {
  }

  lemma {:induction false} ValueInParentheses<V>(g: Meaning<V>, cp: string) returns (v: V, e: string)
    requires ParseValue(g, cp).Done? && SkipSpace(cp) != [] && SkipSpace(cp)[0] == '('
    ensures var r := ParseLevel(g, SkipSpace(cp)[1..], 11);
      && r.Done? && r.val == v && e == SkipSpace(r.cp) && e != [] && e[0] == ')' && ParseValue(g, cp) == Done(e[1..], v)
  {
    var r := ParseLevel(g, SkipSpace(cp)[1..], 11);
    v, e := r.val, SkipSpace(r.cp);
  }

  lemma {:induction false} InParentheses<V>(g: Meaning<V>, cp: string) returns (b: Blanks, p: Phrase, t: string)
    requires ParseValue(g, cp).Done? && SkipSpace(cp) != [] && SkipSpace(cp)[0] == '('
    ensures Operand(g, cp, b, p, t)
    decreases |cp|, 0
  {
    var at := SkipSpace(cp);
    var v, e := ValueInParentheses(g, cp);
    b := LeadingBlanksOf(cp);
    var b1, inner, t1;
    b1, inner, t1 := LevelIsPhrase(g, at[1..], 11);
    var b2 := LeadingBlanksOf(t1);
    HeadAndTail(at, '(');
    HeadAndTail(e, ')');
    p, t := Paren(b1, inner, b2), e[1..];
    SkipTwice(t1);
    ParenStands(at, b1, inner, t1, b2, t);
  }

  lemma {:induction false} SkipTwice(t: string)
    ensures SkipSpace(SkipSpace(t)) == SkipSpace(t)
  {
  }

  // ---------------------------------------------------------------- levels

  lemma {:induction false} LevelIsPhrase<V>(g: Meaning<V>, cp: string, k: nat)
    returns (b: Blanks, p: Phrase, t: string)
    requires k <= 11 && ParseLevel(g, cp, k).Done?
    ensures ReadAs(g, cp, k, b, p, t)
    decreases |cp|, k + 2
  {
    if k == 0 {
      b, p, t := ValueIsOperand(g, cp);
    } else {
      var left, rest;
      b, left, rest := LevelIsPhrase(g, cp, k - 1);
      LevelGoesOn(g, cp, k - 1, rest, Eval(g, Tree(left)));
      NoLonger(left, rest);
      p, t := Continued(g, k, left, rest);
    }
  }

  lemma {:induction false} NoLonger(p: Phrase, t: string)
    ensures |t| <= |Show(p, t)|
    decreases p
  {
    match p {
      case Prefix(_, _, arg) => NoLonger(arg, t);
      case Infix(left, b1, op, b2, right) =>
        NoLonger(left, b1 + (OpText(op) + (b2 + Show(right, t))));
        NoLonger(right, t);
      case Equation(left, b1, b2, right) =>
        NoLonger(left, b1 + ("=" + (b2 + Show(right, t))));
        NoLonger(right, t);
      case Ternary(cond, b1, b2, yes, b3, b4, no) =>
        NoLonger(cond, b1 + ("?" + (b2 + Show(yes, b3 + (":" + (b4 + Show(no, t)))))));
        NoLonger(yes, b3 + (":" + (b4 + Show(no, t))));
        NoLonger(no, t);
      case Paren(_, inner, b2) => NoLonger(inner, b2 + (")" + t));
      case Query(_, _, _, _, answers) => AnswersNoLonger(answers, t);
      case _ =>
    }
  }

  lemma {:induction false} AnswersNoLonger(a: Answers, t: string)
    ensures |t| <= |ShowAnswers(a, t)|
  {
    if a.More? { AnswersNoLonger(a.rest, t); }
  }

  // Behind a phrase of a tighter level, the switch of level k takes an operator, or nothing.
  lemma {:induction false} Continued<V>(g: Meaning<V>, k: nat, left: Phrase, rest: string)
    returns (p: Phrase, t: string)
    requires 0 < k <= 11 && Accepted(left, rest) && Grouped(left, ToTheRight) && Height(left) < k
    requires Continue(g, SkipSpace(rest), k, Eval(g, Tree(left))).Done?
    ensures Show(left, rest) == Show(p, t) && Accepted(p, t) && Grouped(p, ToTheRight) && Height(p) <= k
    ensures IsRead(Continue(g, SkipSpace(rest), k, Eval(g, Tree(left))), k, t, Eval(g, Tree(p)))
    decreases |rest|, 1
  {
    var cp := SkipSpace(rest);
    if k == 11 && cp != [] && cp[0] == '?' {
      p, t := WithArms(g, left, rest);
    } else if k < 11 && TokenAt(k, cp).Token? {
      p, t := WithOperator(g, k, left, rest);
    } else {
      p, t := left, rest;
    }
  }

  lemma {:induction false} WithOperator<V>(g: Meaning<V>, k: nat, left: Phrase, rest: string)
    returns (p: Phrase, t: string)
    requires 0 < k <= 10 && Accepted(left, rest) && Grouped(left, ToTheRight) && Height(left) < k
    requires Continue(g, SkipSpace(rest), k, Eval(g, Tree(left))).Done? && TokenAt(k, SkipSpace(rest)).Token?
    ensures Show(left, rest) == Show(p, t) && Accepted(p, t) && Grouped(p, ToTheRight) && Height(p) <= k
    ensures IsRead(Continue(g, SkipSpace(rest), k, Eval(g, Tree(left))), k, t, Eval(g, Tree(p)))
    decreases |rest|, 0
  {
    var cp, b1 := SkipSpace(rest), "";
    b1 := LeadingBlanksOf(rest);
    var token := TokenAt(k, cp);
    var b2, right;
    b2, right, t := LevelIsPhrase(g, cp[token.len..], k);
    OperatorAt(k, cp);
    p := Joined(left, b1, cp[..token.len], token.op, b2, right);
    IsJoined(g, left, rest, b1, cp[..token.len], token.op, b2, right, t);
  }

  function Joined(left: Phrase, b1: Blanks, o: string, op: Binary, b2: Blanks, right: Phrase): Phrase {
    if o == "=" then Equation(left, b1, b2, right) else Infix(left, b1, op, b2, right)
  }

  lemma {:induction false} IsJoined<V>(g: Meaning<V>, left: Phrase, rest: string, b1: Blanks, o: string, op: Binary,
                                       b2: Blanks, right: Phrase, t: string)
    requires rest == b1 + (o + (b2 + Show(right, t))) && Spells(o, op)
    requires Accepted(left, rest) && Grouped(left, ToTheRight) && Height(left) < LevelOf(op)
    requires Accepted(right, t) && Grouped(right, ToTheRight) && Height(right) <= LevelOf(op)
    ensures var p := Joined(left, b1, o, op, b2, right);
      && Show(left, rest) == Show(p, t) && Accepted(p, t) && Grouped(p, ToTheRight) && Height(p) == LevelOf(op)
      && Eval(g, Tree(p)) == g.binary(op, Eval(g, Tree(left)), Eval(g, Tree(right)))
  {
    if o == "=" {
      SingleSign(op);
      IsEquation(g, left, rest, b1, b2, right, t);
    } else {
      IsInfix(g, left, rest, b1, op, b2, right, t);
    }
  }

  lemma {:induction false} SingleSign(op: Binary)
    requires Spells("=", op)
    ensures op == Same
  {
  }

  lemma {:induction false} IsEquation<V>(g: Meaning<V>, left: Phrase, rest: string, b1: Blanks, b2: Blanks,
                                         right: Phrase, t: string)
    requires rest == b1 + ("=" + (b2 + Show(right, t)))
    requires Accepted(left, rest) && Grouped(left, ToTheRight) && Height(left) < 5
    requires Accepted(right, t) && Grouped(right, ToTheRight) && Height(right) <= 5
    ensures var p := Equation(left, b1, b2, right);
      && Show(left, rest) == Show(p, t) && Accepted(p, t) && Grouped(p, ToTheRight) && Height(p) == 5
      && Eval(g, Tree(p)) == g.binary(Same, Eval(g, Tree(left)), Eval(g, Tree(right)))
  {
    EquationStands(left, rest, b1, b2, right, t);
    EquationGroups(left, b1, b2, right);
    ValueOfEquation(g, left, b1, b2, right);
  }

  lemma {:induction false} EquationGroups(left: Phrase, b1: Blanks, b2: Blanks, right: Phrase)
    requires Grouped(left, ToTheRight) && Height(left) < 5 && Grouped(right, ToTheRight) && Height(right) <= 5
    ensures var p := Equation(left, b1, b2, right); Grouped(p, ToTheRight) && Height(p) == 5
  {
    assert LeftLevel(Same, ToTheRight) == 4 && RightLevel(Same, ToTheRight) == 5;
  }

  lemma {:induction false} ValueOfEquation<V>(g: Meaning<V>, left: Phrase, b1: Blanks, b2: Blanks, right: Phrase)
    ensures Eval(g, Tree(Equation(left, b1, b2, right))) == g.binary(Same, Eval(g, Tree(left)), Eval(g, Tree(right)))
  {
  }

  lemma {:induction false} EquationStands(left: Phrase, rest: string, b1: Blanks, b2: Blanks, right: Phrase, t: string)
    requires rest == b1 + ("=" + (b2 + Show(right, t))) && Accepted(left, rest) && Accepted(right, t)
    ensures var p := Equation(left, b1, b2, right); Show(left, rest) == Show(p, t) && Accepted(p, t)
  {
  }

  lemma {:induction false} IsInfix<V>(g: Meaning<V>, left: Phrase, rest: string, b1: Blanks, op: Binary, b2: Blanks,
                                      right: Phrase, t: string)
    requires rest == b1 + (OpText(op) + (b2 + Show(right, t)))
    requires Accepted(left, rest) && Grouped(left, ToTheRight) && Height(left) < LevelOf(op)
    requires Accepted(right, t) && Grouped(right, ToTheRight) && Height(right) <= LevelOf(op)
    ensures var p := Infix(left, b1, op, b2, right);
      && Show(left, rest) == Show(p, t) && Accepted(p, t) && Grouped(p, ToTheRight) && Height(p) == LevelOf(op)
      && Eval(g, Tree(p)) == g.binary(op, Eval(g, Tree(left)), Eval(g, Tree(right)))
  {
  }

  // What the switch takes for an operator is one, in one of its spellings, and of its level.
  lemma {:induction false} OperatorAt(k: nat, cp: string)
    requires 0 < k <= 10 && TokenAt(k, cp).Token?
    ensures var t := TokenAt(k, cp);
      Spells(cp[..t.len], t.op) && LevelOf(t.op) == k && cp == cp[..t.len] + cp[t.len..]
  {
  }

  lemma {:induction false} WithArms<V>(g: Meaning<V>, left: Phrase, rest: string) returns (p: Phrase, t: string)
    requires Accepted(left, rest) && Grouped(left, ToTheRight) && Height(left) < 11
    requires SkipSpace(rest) != [] && SkipSpace(rest)[0] == '?'
    requires ParseArms(g, SkipSpace(rest)[1..], Eval(g, Tree(left))).Done?
    ensures Show(left, rest) == Show(p, t) && Accepted(p, t) && Grouped(p, ToTheRight) && Height(p) <= 11
    ensures IsRead(ParseArms(g, SkipSpace(rest)[1..], Eval(g, Tree(left))), 11, t, Eval(g, Tree(p)))
    decreases |rest|, 0
  {
    var cp := SkipSpace(rest);
    var b1 := LeadingBlanksOf(rest);
    var b2, yes, behind;
    b2, yes, behind := LevelIsPhrase(g, cp[1..], 11);
    var at := SkipSpace(behind);
    var b3 := LeadingBlanksOf(behind);
    var b4, no;
    b4, no, t := LevelIsPhrase(g, at[1..], 11);
    HeadAndTail(cp, '?');
    HeadAndTail(at, ':');
    p := Ternary(left, b1, b2, yes, b3, b4, no);
    IsTernary(g, p, rest, behind, t);
  }

  lemma {:induction false} IsTernary<V>(g: Meaning<V>, p: Phrase, rest: string, behind: string, t: string)
    requires p.Ternary? && behind == p.b3 + (":" + (p.b4 + Show(p.no, t)))
    requires rest == p.b1 + ("?" + (p.b2 + Show(p.yes, behind)))
    requires Accepted(p.cond, rest) && Grouped(p.cond, ToTheRight) && Height(p.cond) < 11
    requires Accepted(p.yes, behind) && Grouped(p.yes, ToTheRight)
    requires Accepted(p.no, t) && Grouped(p.no, ToTheRight)
    ensures Show(p.cond, rest) == Show(p, t) && Accepted(p, t) && Grouped(p, ToTheRight) && Height(p) == 11
    ensures Eval(g, Tree(p)) == g.choice(Eval(g, Tree(p.cond)), Eval(g, Tree(p.yes)), Eval(g, Tree(p.no)))
  {
  }

  // ---------------------------------------------------------------- exactly the phrases

  ghost predicate Stands(text: string, before: Blanks, p: Phrase, behind: Blanks) {
    text == Line(before, p, behind) && Accepted(p, behind) && Grouped(p, ToTheRight)
  }

  /** The evaluator reads a text to its end, with the value v, if and only if the text is a phrase that is
      grouped for nesting to the right, between blanks, whose tree has that value. */
  lemma {:induction false} AcceptsExactlyPhrases<V>(g: Meaning<V>, text: string, v: V)
    ensures ParseIfExpression(g, text) == Done("", v) <==>
      exists before: Blanks, p: Phrase, behind: Blanks :: Stands(text, before, p, behind) && Eval(g, Tree(p)) == v
  {
    if ParseIfExpression(g, text) == Done("", v) {
      var before, p, behind := LevelIsPhrase(g, text, 11);
      var b := LeadingBlanksOf(behind);
      assert behind == b;
      assert Stands(text, before, p, b);
    }
    forall before: Blanks, p: Phrase, behind: Blanks | Stands(text, before, p, behind)
      ensures ParseIfExpression(g, text) == Done("", Eval(g, Tree(p)))
    {
      AcceptedReadsBack(g, before, p, behind);
    }
  }

  // ---------------------------------------------------------------- the operators, spelt out

  lemma {:induction false} BetweenNames<V>(g: Meaning<V>, a: string, op: Binary, o: string, b: string)
    requires IsName(a) && !Captured(a) && IsName(b) && !Captured(b) && o == OpText(op)
    ensures ParseIfExpression(g, a + o + b) == Done("", g.binary(op, g.variable(a), g.variable(b)))
  {
    var p := Infix(Ident(a), "", op, "", Ident(b));
    NamesShown(a, op, o, b);
    AcceptedReadsBack(g, "", p, "");
  }

  lemma {:induction false} NamesShown(a: string, op: Binary, o: string, b: string)
    requires o == OpText(op)
    ensures Line("", Infix(Ident(a), "", op, "", Ident(b)), "") == a + o + b
  {
    var t := o + ("" + (b + ""));
    assert Show(Ident(b), "") == b + "" && Show(Ident(a), "" + t) == a + ("" + t);
    assert "" + (a + ("" + t)) == a + o + b;
  }

  /** Arithmetic and shifts between two names, as they are spelt in C. */
  lemma {:induction false} ArithmeticOfC<V>(g: Meaning<V>, a: string, b: string)
    requires IsName(a) && !Captured(a) && IsName(b) && !Captured(b)
    ensures var x, y := g.variable(a), g.variable(b);
      && ParseIfExpression(g, a + "*" + b) == Done("", g.binary(Times, x, y))
      && ParseIfExpression(g, a + "/" + b) == Done("", g.binary(Divide, x, y))
      && ParseIfExpression(g, a + "%" + b) == Done("", g.binary(Modulo, x, y))
      && ParseIfExpression(g, a + "+" + b) == Done("", g.binary(Plus, x, y))
      && ParseIfExpression(g, a + "-" + b) == Done("", g.binary(Minus, x, y))
      && ParseIfExpression(g, a + "<<" + b) == Done("", g.binary(ShiftLeft, x, y))
      && ParseIfExpression(g, a + ">>" + b) == Done("", g.binary(ShiftRight, x, y))
  {
    BetweenNames(g, a, Times, "*", b);
    BetweenNames(g, a, Divide, "/", b);
    BetweenNames(g, a, Modulo, "%", b);
    BetweenNames(g, a, Plus, "+", b);
    BetweenNames(g, a, Minus, "-", b);
    BetweenNames(g, a, ShiftLeft, "<<", b);
    BetweenNames(g, a, ShiftRight, ">>", b);
  }

  /** Comparisons between two names, as they are spelt in C. */
  lemma {:induction false} ComparisonsOfC<V>(g: Meaning<V>, a: string, b: string)
    requires IsName(a) && !Captured(a) && IsName(b) && !Captured(b)
    ensures var x, y := g.variable(a), g.variable(b);
      && ParseIfExpression(g, a + "<=" + b) == Done("", g.binary(AtMost, x, y))
      && ParseIfExpression(g, a + "<" + b) == Done("", g.binary(LessThan, x, y))
      && ParseIfExpression(g, a + ">=" + b) == Done("", g.binary(AtLeast, x, y))
      && ParseIfExpression(g, a + ">" + b) == Done("", g.binary(GreaterThan, x, y))
      && ParseIfExpression(g, a + "==" + b) == Done("", g.binary(Same, x, y))
      && ParseIfExpression(g, a + "!=" + b) == Done("", g.binary(Differs, x, y))
  {
    BetweenNames(g, a, AtMost, "<=", b);
    BetweenNames(g, a, LessThan, "<", b);
    BetweenNames(g, a, AtLeast, ">=", b);
    BetweenNames(g, a, GreaterThan, ">", b);
    BetweenNames(g, a, Same, "==", b);
    BetweenNames(g, a, Differs, "!=", b);
  }

  /** Bitwise and logical operators between two names, as they are spelt in C. */
  lemma {:induction false} LogicOfC<V>(g: Meaning<V>, a: string, b: string)
    requires IsName(a) && !Captured(a) && IsName(b) && !Captured(b)
    ensures var x, y := g.variable(a), g.variable(b);
      && ParseIfExpression(g, a + "&" + b) == Done("", g.binary(BitAnd, x, y))
      && ParseIfExpression(g, a + "^" + b) == Done("", g.binary(BitXor, x, y))
      && ParseIfExpression(g, a + "|" + b) == Done("", g.binary(BitOr, x, y))
      && ParseIfExpression(g, a + "&&" + b) == Done("", g.binary(And, x, y))
      && ParseIfExpression(g, a + "||" + b) == Done("", g.binary(Or, x, y))
  {
    BetweenNames(g, a, BitAnd, "&", b);
    BetweenNames(g, a, BitXor, "^", b);
    BetweenNames(g, a, BitOr, "|", b);
    BetweenNames(g, a, And, "&&", b);
    BetweenNames(g, a, Or, "||", b);
  }

  // ---------------------------------------------------------------- the order of precedence

  lemma {:induction false} TighterFirst<V>(g: Meaning<V>, a: string, op: Binary, o: string, b: string, loose: Binary,
                                           l: string, c: string)
    requires forall n :: n in [a, b, c] ==> IsName(n) && !Captured(n)
    requires o == OpText(op) && l == OpText(loose) && LevelOf(op) < LevelOf(loose)
    ensures ParseIfExpression(g, a + o + b + l + c) ==
      Done("", g.binary(loose, g.binary(op, g.variable(a), g.variable(b)), g.variable(c)))
  {
    assert a in [a, b, c] && b in [a, b, c] && c in [a, b, c];
    var left := Infix(Ident(a), "", op, "", Ident(b));
    TighterShown(a, op, o, b, loose, l, c);
    InfixIsAccepted(a, op, b, "" + (OpText(loose) + ("" + Show(Ident(c), ""))));
    AcceptedReadsBack(g, "", Infix(left, "", loose, "", Ident(c)), "");
    ValueOfNames(g, a, op, b);
    assert Tree(Infix(left, "", loose, "", Ident(c))) == Bin(loose, Tree(left), Variable(c));
  }

  lemma {:induction false} ValueOfNames<V>(g: Meaning<V>, a: string, op: Binary, b: string)
    ensures Eval(g, Tree(Infix(Ident(a), "", op, "", Ident(b)))) == g.binary(op, g.variable(a), g.variable(b))
  {
  }

  lemma {:induction false} InfixIsAccepted(a: string, op: Binary, b: string, tail: string)
    requires IsName(a) && !Captured(a) && IsName(b) && !Captured(b)
    ensures var p := Infix(Ident(a), "", op, "", Ident(b));
      Accepted(p, tail) && Grouped(p, ToTheRight) && Height(p) == LevelOf(op)
  {
  }

  lemma {:induction false} ShownOnLeft(a: string, op: Binary, o: string, b: string, t: string)
    requires o == OpText(op)
    ensures Show(Infix(Ident(a), "", op, "", Ident(b)), t) == a + o + b + t
  {
    var behind := "" + (o + ("" + (b + t)));
    assert Show(Ident(b), t) == b + t && Show(Ident(a), behind) == a + behind;
    assert a + behind == a + o + b + t;
  }

  lemma {:induction false} TighterShown(a: string, op: Binary, o: string, b: string, loose: Binary, l: string,
                                        c: string)
    requires o == OpText(op) && l == OpText(loose)
    ensures Line("", Infix(Infix(Ident(a), "", op, "", Ident(b)), "", loose, "", Ident(c)), "") == a + o + b + l + c
  {
    var left, t := Infix(Ident(a), "", op, "", Ident(b)), "" + (l + ("" + (c + "")));
    ShownOnLeft(a, op, o, b, t);
    assert Show(Ident(c), "") == c + "" && Show(Infix(left, "", loose, "", Ident(c)), "") == Show(left, t);
    assert t == l + c && a + o + b + (l + c) == a + o + b + l + c;
  }

  /** C's order of precedence, level by level, as it is spelt: products bind tighter than sums, and these than
      shifts. */
  lemma {:induction false} PrecedenceOfArithmetic<V>(g: Meaning<V>, a: string, b: string, c: string)
    requires forall n :: n in [a, b, c] ==> IsName(n) && !Captured(n)
    ensures var x, y, z := g.variable(a), g.variable(b), g.variable(c);
      && ParseIfExpression(g, a + "*" + b + "+" + c) == Done("", g.binary(Plus, g.binary(Times, x, y), z))
      && ParseIfExpression(g, a + "/" + b + "+" + c) == Done("", g.binary(Plus, g.binary(Divide, x, y), z))
      && ParseIfExpression(g, a + "%" + b + "+" + c) == Done("", g.binary(Plus, g.binary(Modulo, x, y), z))
      && ParseIfExpression(g, a + "+" + b + "<<" + c) == Done("", g.binary(ShiftLeft, g.binary(Plus, x, y), z))
      && ParseIfExpression(g, a + "-" + b + "<<" + c) == Done("", g.binary(ShiftLeft, g.binary(Minus, x, y), z))
      && ParseIfExpression(g, a + "*" + b + "-" + c) == Done("", g.binary(Minus, g.binary(Times, x, y), z))
      && ParseIfExpression(g, a + "+" + b + ">>" + c) == Done("", g.binary(ShiftRight, g.binary(Plus, x, y), z))
  {
    TighterFirst(g, a, Times, "*", b, Plus, "+", c);
    TighterFirst(g, a, Divide, "/", b, Plus, "+", c);
    TighterFirst(g, a, Modulo, "%", b, Plus, "+", c);
    TighterFirst(g, a, Plus, "+", b, ShiftLeft, "<<", c);
    TighterFirst(g, a, Minus, "-", b, ShiftLeft, "<<", c);
    TighterFirst(g, a, Times, "*", b, Minus, "-", c);
    TighterFirst(g, a, Plus, "+", b, ShiftRight, ">>", c);
  }

  /** Shifts bind tighter than inequalities. */
  lemma {:induction false} PrecedenceOfShifts<V>(g: Meaning<V>, a: string, b: string, c: string)
    requires forall n :: n in [a, b, c] ==> IsName(n) && !Captured(n)
    ensures var x, y, z := g.variable(a), g.variable(b), g.variable(c);
      && ParseIfExpression(g, a + "<<" + b + "<=" + c) == Done("", g.binary(AtMost, g.binary(ShiftLeft, x, y), z))
      && ParseIfExpression(g, a + ">>" + b + "<=" + c) == Done("", g.binary(AtMost, g.binary(ShiftRight, x, y), z))
      && ParseIfExpression(g, a + "<<" + b + "<" + c) == Done("", g.binary(LessThan, g.binary(ShiftLeft, x, y), z))
      && ParseIfExpression(g, a + "<<" + b + ">=" + c) == Done("", g.binary(AtLeast, g.binary(ShiftLeft, x, y), z))
      && ParseIfExpression(g, a + "<<" + b + ">" + c) ==
           Done("", g.binary(GreaterThan, g.binary(ShiftLeft, x, y), z))
  {
    TighterFirst(g, a, ShiftLeft, "<<", b, AtMost, "<=", c);
    TighterFirst(g, a, ShiftRight, ">>", b, AtMost, "<=", c);
    TighterFirst(g, a, ShiftLeft, "<<", b, LessThan, "<", c);
    TighterFirst(g, a, ShiftLeft, "<<", b, AtLeast, ">=", c);
    TighterFirst(g, a, ShiftLeft, "<<", b, GreaterThan, ">", c);
  }

  /** Inequalities bind tighter than equalities, and these than the bitwise and. */
  lemma {:induction false} PrecedenceOfComparisons<V>(g: Meaning<V>, a: string, b: string, c: string)
    requires forall n :: n in [a, b, c] ==> IsName(n) && !Captured(n)
    ensures var x, y, z := g.variable(a), g.variable(b), g.variable(c);
      && ParseIfExpression(g, a + "<=" + b + "==" + c) == Done("", g.binary(Same, g.binary(AtMost, x, y), z))
      && ParseIfExpression(g, a + "<" + b + "==" + c) == Done("", g.binary(Same, g.binary(LessThan, x, y), z))
      && ParseIfExpression(g, a + ">=" + b + "==" + c) == Done("", g.binary(Same, g.binary(AtLeast, x, y), z))
      && ParseIfExpression(g, a + ">" + b + "==" + c) == Done("", g.binary(Same, g.binary(GreaterThan, x, y), z))
      && ParseIfExpression(g, a + "==" + b + "&" + c) == Done("", g.binary(BitAnd, g.binary(Same, x, y), z))
      && ParseIfExpression(g, a + "!=" + b + "&" + c) == Done("", g.binary(BitAnd, g.binary(Differs, x, y), z))
      && ParseIfExpression(g, a + "<=" + b + "!=" + c) == Done("", g.binary(Differs, g.binary(AtMost, x, y), z))
  {
    TighterFirst(g, a, AtMost, "<=", b, Same, "==", c);
    TighterFirst(g, a, LessThan, "<", b, Same, "==", c);
    TighterFirst(g, a, AtLeast, ">=", b, Same, "==", c);
    TighterFirst(g, a, GreaterThan, ">", b, Same, "==", c);
    TighterFirst(g, a, Same, "==", b, BitAnd, "&", c);
    TighterFirst(g, a, Differs, "!=", b, BitAnd, "&", c);
    TighterFirst(g, a, AtMost, "<=", b, Differs, "!=", c);
  }

  /** The bitwise and binds tighter than the exclusive or, and so on down to the logical or. */
  lemma {:induction false} PrecedenceOfLogic<V>(g: Meaning<V>, a: string, b: string, c: string)
    requires forall n :: n in [a, b, c] ==> IsName(n) && !Captured(n)
    ensures var x, y, z := g.variable(a), g.variable(b), g.variable(c);
      && ParseIfExpression(g, a + "&" + b + "^" + c) == Done("", g.binary(BitXor, g.binary(BitAnd, x, y), z))
      && ParseIfExpression(g, a + "^" + b + "|" + c) == Done("", g.binary(BitOr, g.binary(BitXor, x, y), z))
      && ParseIfExpression(g, a + "|" + b + "&&" + c) == Done("", g.binary(And, g.binary(BitOr, x, y), z))
      && ParseIfExpression(g, a + "&&" + b + "||" + c) == Done("", g.binary(Or, g.binary(And, x, y), z))
  {
    TighterFirst(g, a, BitAnd, "&", b, BitXor, "^", c);
    TighterFirst(g, a, BitXor, "^", b, BitOr, "|", c);
    TighterFirst(g, a, BitOr, "|", b, And, "&&", c);
    TighterFirst(g, a, And, "&&", b, Or, "||", c);
  }
}
