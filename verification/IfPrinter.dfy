/** Expression trees, the ways to write them down, and the proof that the #if evaluator reads a text as
    the tree it was written for. Levels bind as in C; within a level the code nests to the right, and
    a text written for C's nesting is read as another tree, which is given. */
module IfPrinter {
  import opened Names
  import opened IfParser

  datatype Expr =
    | Number(digits: string, qualifiers: Qualifiers)
    | Variable(name: string)
    | Defined(name: string)
    | Assertion(question: string, answers: seq<string>)
    | Un(op: Unary, arg: Expr)
    | Bin(bop: Binary, left: Expr, right: Expr)
    | Choice(cond: Expr, yes: Expr, no: Expr)
    | Missing

  // ---------------------------------------------------------------- which trees have a text

  predicate NameChar(c: char) {
    'a' <= c <= 'z' || 'A' <= c <= 'Z' || '0' <= c <= '9' || c == '_'
  }

  predicate IsName(name: string) {
    name != [] && NameChar(name[0]) && !('0' <= name[0] <= '9') && forall c :: c in name ==> NameChar(c)
  }

  predicate IsDecimal(digits: string) {
    digits != [] && '1' <= digits[0] <= '9' && forall c :: c in digits ==> '0' <= c <= '9'
  }

  predicate IsOctal(digits: string) {
    digits != [] && digits[0] == '0' && forall c :: c in digits ==> '0' <= c <= '7'
  }

  predicate IsHexadecimal(digits: string) {
    && 2 < |digits| && digits[0] == '0' && (digits[1] == 'x' || digits[1] == 'X')
    && forall c :: c in digits[2..] ==> '0' <= c <= '9' || 'a' <= c <= 'f' || 'A' <= c <= 'F'
  }

  predicate IsLiteral(digits: string) {
    IsDecimal(digits) || IsOctal(digits) || IsHexadecimal(digits)
  }

  // The letters that may follow a literal.
  predicate Suffix(c: char) {
    c == 'u' || c == 'U' || c == 'l' || c == 'L'
  }

  type Qualifiers = q: string | forall c :: c in q ==> Suffix(c)

  // The identifiers that parse_value takes for the operator: defined, and all that continue it
  // with an underscore.
  predicate Captured(name: string) {
    name == "defined" || (|name| > 7 && name[..8] == "defined_")
  }

  predicate Printable(e: Expr) {
    match e
    case Missing => false
    case Number(digits, _) => IsLiteral(digits)
    case Variable(name) => IsName(name)
    case Defined(name) => IsName(name)
    case Assertion(question, answers) => IsName(question) && answers != [] && forall a :: a in answers ==> IsName(a)
    case Un(_, arg) => Printable(arg)
    case Bin(_, left, right) => Printable(left) && Printable(right)
    case Choice(cond, yes, no) => Printable(cond) && Printable(yes) && Printable(no)
  }

  predicate Uncaptured(e: Expr) {
    match e
    case Variable(name) => !Captured(name)
    case Un(_, arg) => Uncaptured(arg)
    case Bin(_, left, right) => Uncaptured(left) && Uncaptured(right)
    case Choice(cond, yes, no) => Uncaptured(cond) && Uncaptured(yes) && Uncaptured(no)
    case _ => true
  }

  // C's precedence, tightest first: the level at which each operator is parsed.
  function LevelOf(op: Binary): (k: nat)
    ensures 1 <= k <= 10
  {
    match op
    case Times => 1 case Divide => 1 case Modulo => 1
    case Plus => 2 case Minus => 2
    case ShiftLeft => 3 case ShiftRight => 3
    case AtMost => 4 case LessThan => 4 case AtLeast => 4 case GreaterThan => 4
    case Same => 5 case Differs => 5
    case BitAnd => 6
    case BitXor => 7
    case BitOr => 8
    case And => 9
    case Or => 10
  }

  // ---------------------------------------------------------------- the value

  function Eval<V>(g: Meaning<V>, e: Expr): V {
    match e
    case Missing => g.zero
    case Number(digits, _) => g.number(digits)
    case Variable(name) => g.variable(name)
    case Defined(name) => g.defined(name)
    case Assertion(_, _) => g.one
    case Un(op, arg) => g.unary(op, Eval(g, arg))
    case Bin(op, left, right) => g.binary(op, Eval(g, left), Eval(g, right))
    case Choice(cond, yes, no) => g.choice(Eval(g, cond), Eval(g, yes), Eval(g, no))
  }

  // ---------------------------------------------------------------- phrases

  // Blanks, tabs, newlines, vertical tabs, form feeds and carriage returns.
  type Blanks = b: string | forall c :: c in b ==> c == ' ' || '\t' <= c <= '\r'

  // A tree as it is written: the blanks in every gap between two tokens, and all parentheses. Nothing is an
  // operand missing at the end of the text, and an Equation a comparison written with a single =.
  datatype Phrase =
    | Nothing
    | Literal(digits: string, qualifiers: Qualifiers)
    | Ident(name: string)
    | DefinedIn(b1: Blanks, b2: Blanks, name: string, b3: Blanks)
    | DefinedBare(b1: Blanks, name: string)
    | Query(b1: Blanks, question: string, b2: Blanks, b3: Blanks, answers: Answers)
    | Prefix(op: Unary, b1: Blanks, arg: Phrase)
    | Infix(left: Phrase, b1: Blanks, iop: Binary, b2: Blanks, right: Phrase)
    | Equation(left: Phrase, b1: Blanks, b2: Blanks, right: Phrase)
    | Ternary(cond: Phrase, b1: Blanks, b2: Blanks, yes: Phrase, b3: Blanks, b4: Blanks, no: Phrase)
    | Paren(b1: Blanks, inner: Phrase, b2: Blanks)

  // The answers of an assertion, which any character may separate that is neither blank nor part
  // of a name nor a closing parenthesis.
  datatype Answers =
    | Last(name: string, b1: Blanks)
    | More(name: string, b1: Blanks, separator: char, b2: Blanks, rest: Answers)

  predicate AreWritten(a: Answers) {
    IsName(a.name) && (a.More? ==> IsSeparator(a.separator) && AreWritten(a.rest))
  }

  predicate IsSeparator(c: char) {
    c != ' ' && !('\t' <= c <= '\r') && !NameChar(c) && c != ')' && c != '\0'
  }

  predicate Written(p: Phrase) {
    match p
    case Nothing => false
    case Equation(_, _, _, _) => false
    case Literal(digits, _) => IsLiteral(digits)
    case Ident(name) => IsName(name)
    case DefinedIn(_, _, name, _) => IsName(name)
    case DefinedBare(b1, name) => b1 != [] && IsName(name)
    case Query(_, question, _, _, answers) => IsName(question) && AreWritten(answers)
    case Prefix(_, _, arg) => Written(arg)
    case Infix(left, _, _, _, right) => Written(left) && Written(right)
    case Ternary(cond, _, _, yes, _, _, no) => Written(cond) && Written(yes) && Written(no)
    case Paren(_, inner, _) => Written(inner)
  }

  function NamesIn(a: Answers): seq<string> {
    match a
    case Last(name, _) => [name]
    case More(name, _, _, _, rest) => [name] + NamesIn(rest)
  }

  // The tree that a phrase writes down.
  function Tree(p: Phrase): Expr {
    match p
    case Nothing => Missing
    case Literal(digits, qualifiers) => Number(digits, qualifiers)
    case Ident(name) => Variable(name)
    case DefinedIn(_, _, name, _) => Defined(name)
    case DefinedBare(_, name) => Defined(name)
    case Query(_, question, _, _, answers) => Assertion(question, NamesIn(answers))
    case Prefix(op, _, arg) => Un(op, Tree(arg))
    case Infix(left, _, op, _, right) => Bin(op, Tree(left), Tree(right))
    case Equation(left, _, _, right) => Bin(Same, Tree(left), Tree(right))
    case Ternary(cond, _, _, yes, _, _, no) => Choice(Tree(cond), Tree(yes), Tree(no))
    case Paren(_, inner, _) => Tree(inner)
  }

  function OpText(op: Binary): string {
    match op
    case Times => "*" case Divide => "/" case Modulo => "%"
    case Plus => "+" case Minus => "-"
    case ShiftLeft => "<<" case ShiftRight => ">>"
    case AtMost => "<=" case LessThan => "<" case AtLeast => ">=" case GreaterThan => ">"
    case Same => "==" case Differs => "!="
    case BitAnd => "&" case BitXor => "^" case BitOr => "|"
    case And => "&&" case Or => "||"
  }

  function UnaryText(op: Unary): string {
    match op
    case Not => "!" case Negate => "-" case Complement => "~"
  }

  // The text of a phrase, followed by tail.
  function Show(p: Phrase, tail: string): string
    decreases p
  {
    match p
    case Nothing => tail
    case Literal(digits, qualifiers) => digits + (qualifiers + tail)
    case Ident(name) => name + tail
    case DefinedIn(b1, b2, name, b3) => "defined" + (b1 + ("(" + (b2 + (name + (b3 + (")" + tail))))))
    case DefinedBare(b1, name) => "defined" + (b1 + (name + tail))
    case Query(b1, question, b2, b3, answers) =>
      "#" + (b1 + (question + (b2 + ("(" + (b3 + ShowAnswers(answers, tail))))))
    case Prefix(op, b1, arg) => UnaryText(op) + (b1 + Show(arg, tail))
    case Infix(left, b1, op, b2, right) => Show(left, b1 + (OpText(op) + (b2 + Show(right, tail))))
    case Equation(left, b1, b2, right) => Show(left, b1 + ("=" + (b2 + Show(right, tail))))
    case Ternary(cond, b1, b2, yes, b3, b4, no) =>
      Show(cond, b1 + ("?" + (b2 + Show(yes, b3 + (":" + (b4 + Show(no, tail)))))))
    case Paren(b1, inner, b2) => "(" + (b1 + Show(inner, b2 + (")" + tail)))
  }

  function ShowAnswers(a: Answers, tail: string): string {
    match a
    case Last(name, b1) => name + (b1 + (")" + tail))
    case More(name, b1, separator, b2, rest) => name + (b1 + ([separator] + (b2 + ShowAnswers(rest, tail))))
  }

  // ---------------------------------------------------------------- which texts are accepted

  // The names in the list of an assertion. Any character may stand between two of them but a blank or a
  // closing parenthesis; even one that could be part of a name, behind a blank.
  predicate AreAccepted(a: Answers) {
    IsName(a.name) && (a.More? ==>
      && a.separator != ')' && a.separator != ' ' && !('\t' <= a.separator <= '\r')
      && (a.b1 == [] ==> !NameChar(a.separator)) && AreAccepted(a.rest))
  }

  // The phrases that the evaluator accepts in front of tail. Beside those that are written as in C, an
  // operand may be missing at the end of the text, = stands for ==, and what follows the word defined may
  // be glued to it, if it begins with an underscore.
  predicate Accepted(p: Phrase, tail: string)
    decreases p
  {
    match p
    case Nothing => tail == []
    case Literal(digits, _) => IsLiteral(digits)
    case Ident(name) => IsName(name) && !Captured(name)
    case DefinedIn(_, _, name, _) => IsName(name)
    case DefinedBare(b1, name) => IsName(name) && (b1 == [] ==> name[0] == '_')
    case Query(_, question, _, _, answers) => IsName(question) && AreAccepted(answers)
    case Prefix(_, _, arg) => Accepted(arg, tail)
    case Infix(left, b1, op, b2, right) =>
      Accepted(left, b1 + (OpText(op) + (b2 + Show(right, tail)))) && Accepted(right, tail)
    case Equation(left, b1, b2, right) =>
      Accepted(left, b1 + ("=" + (b2 + Show(right, tail)))) && Accepted(right, tail)
    case Ternary(cond, b1, b2, yes, b3, b4, no) =>
      && Accepted(cond, b1 + ("?" + (b2 + Show(yes, b3 + (":" + (b4 + Show(no, tail)))))))
      && Accepted(yes, b3 + (":" + (b4 + Show(no, tail)))) && Accepted(no, tail)
    case Paren(_, inner, b2) => Accepted(inner, b2 + (")" + tail))
  }

  lemma {:induction false} WrittenAnswers(a: Answers)
    requires AreWritten(a)
    ensures AreAccepted(a)
  {
    if a.More? { WrittenAnswers(a.rest); }
  }

  /** A phrase written as in C is accepted, if none of its identifiers is captured. */
  lemma {:induction false} WrittenIsAccepted(p: Phrase, tail: string)
    requires Written(p) && Uncaptured(Tree(p))
    ensures Accepted(p, tail)
    decreases p
  {
    match p {
      case Query(_, _, _, _, answers) => WrittenAnswers(answers);
      case Prefix(_, _, arg) => WrittenIsAccepted(arg, tail);
      case Infix(left, b1, op, b2, right) =>
        WrittenIsAccepted(left, b1 + (OpText(op) + (b2 + Show(right, tail))));
        WrittenIsAccepted(right, tail);
      case Ternary(cond, b1, b2, yes, b3, b4, no) =>
        WrittenIsAccepted(cond, b1 + ("?" + (b2 + Show(yes, b3 + (":" + (b4 + Show(no, tail)))))));
        WrittenIsAccepted(yes, b3 + (":" + (b4 + Show(no, tail))));
        WrittenIsAccepted(no, tail);
      case Paren(_, inner, b2) => WrittenIsAccepted(inner, b2 + (")" + tail));
      case _ =>
    }
  }

  // ---------------------------------------------------------------- nesting

  function Height(p: Phrase): (k: nat)
    ensures k <= 11
  {
    match p
    case Infix(_, _, op, _, _) => LevelOf(op)
    case Equation(_, _, _, _) => 5
    case Ternary(_, _, _, _, _, _, _) => 11
    case _ => 0
  }

  // How operators of one level in a row nest: in the code to the right, in C to the left.
  datatype Nesting = ToTheRight | ToTheLeft

  // Parentheses stand wherever precedence and nesting call for them.
  predicate Grouped(p: Phrase, n: Nesting) {
    match p
    case Prefix(_, _, arg) => Height(arg) == 0 && Grouped(arg, n)
    case Infix(left, _, op, _, right) =>
      && Height(left) <= LeftLevel(op, n) && Height(right) <= RightLevel(op, n)
      && Grouped(left, n) && Grouped(right, n)
    case Equation(left, _, _, right) =>
      && Height(left) <= LeftLevel(Same, n) && Height(right) <= RightLevel(Same, n)
      && Grouped(left, n) && Grouped(right, n)
    case Ternary(cond, _, _, yes, _, _, no) =>
      Height(cond) <= 10 && Grouped(cond, n) && Grouped(yes, n) && Grouped(no, n)
    case Paren(_, inner, _) => Grouped(inner, n)
    case _ => true
  }

  function LeftLevel(op: Binary, n: Nesting): nat {
    if n.ToTheLeft? then LevelOf(op) else LevelOf(op) - 1
  }

  function RightLevel(op: Binary, n: Nesting): nat {
    if n.ToTheRight? then LevelOf(op) else LevelOf(op) - 1
  }

  // ---------------------------------------------------------------- scanning the text

  lemma {:induction false} SkipBlanks(b: Blanks, t: string)
    ensures SkipSpace(b + t) == SkipSpace(t)
  {
    if b == [] {
      assert b + t == t;
    } else {
      assert (b + t)[1..] == b[1..] + t;
      assert b[0] in b;
      SkipBlanks(b[1..], t);
    }
  }

  lemma {:induction false} WordOf(w: string, t: string)
    requires (forall c :: c in w ==> NameChar(c)) && !NameChar(At(t, 0))
    ensures Word(w + t) == w
  {
    if w == [] {
      assert w + t == t;
    } else {
      assert (w + t)[1..] == w[1..] + t && (w + t)[0] == w[0];
      assert w[0] in w && IsVarLetter(w[0]);
      assert forall c :: c in w[1..] ==> c in w;
      WordOf(w[1..], t);
    }
  }

  lemma {:induction false} WordIsName(first: char, w: string)
    requires IsVarFirstLetter(first) && forall c :: c in w ==> IsVarLetter(c)
    ensures IsName([first] + w)
  {
  }

  lemma {:induction false} WordAt(at: string)
    requires at != [] && IsVarFirstLetter(at[0])
    ensures var name := [at[0]] + Word(at[1..]);
      |name| <= |at| && at == name + at[|name|..] && IsName(name) && !NameChar(At(at[|name|..], 0))
  {
    var w := Word(at[1..]);
    var rest := at[1..][|w|..];
    WordIsName(at[0], w);
    assert at == [at[0]] + at[1..] == [at[0]] + (w + rest) == ([at[0]] + w) + rest;
    assert rest == at[1 + |w|..] && At(rest, 0) == At(at[1..], |w|);
  }

  lemma {:induction false} QualifiersStop(q: Qualifiers, t: string)
    requires !Suffix(At(t, 0))
    ensures SkipQualifiers(q + t) == t
  {
    if q == [] {
      assert q + t == t;
    } else {
      assert (q + t)[1..] == q[1..] + t;
      assert q[0] in q;
      QualifiersStop(q[1..], t);
    }
  }

  lemma {:induction false} DigitsCounted(cp: string, base: nat)
    ensures forall i :: 0 <= i < DigitCount(cp, base) ==> IsDigitOf(cp[i], base)
    ensures DigitCount(cp, base) < |cp| ==> !IsDigitOf(cp[DigitCount(cp, base)], base)
  {
    if cp != [] && IsDigitOf(cp[0], base) {
      DigitsCounted(cp[1..], base);
      var n := DigitCount(cp[1..], base);
      assert forall i :: 0 < i <= n ==> cp[i] == cp[1..][i - 1];
      assert 1 + n < |cp| ==> cp[1 + n] == cp[1..][n];
    }
  }

  lemma {:induction false} LiteralChars(d: string, i: nat)
    requires IsLiteral(d) && i < |d|
    ensures NameChar(d[i]) && !Suffix(d[i])
    ensures IsDecimal(d) ==> IsDigitOf(d[i], 10)
    ensures IsOctal(d) ==> IsDigitOf(d[i], 8)
    ensures IsHexadecimal(d) && i >= 2 ==> IsDigitOf(d[i], 16)
  {
    assert d[i] in d;
    if IsHexadecimal(d) && i >= 2 { assert d[2..][i - 2] == d[i] && d[i] in d[2..]; }
  }

  /** strtol reads the longest literal that the text begins with. */
  lemma {:induction false} LongestLiteralIsRead(cp: string)
    requires cp != [] && '0' <= cp[0] <= '9'
    ensures IsLiteral(cp[..NumberLength(cp)])
    ensures forall m :: NumberLength(cp) < m <= |cp| ==> !IsLiteral(cp[..m])
  {
    var n := NumberLength(cp);
    if cp[0] == '0' && 2 < |cp| && (cp[1] == 'x' || cp[1] == 'X') && IsDigitOf(cp[2], 16) {
      DigitsCounted(cp[2..], 16);
      assert n < |cp| ==> cp[n] == cp[2..][n - 2];
      assert forall i :: 0 <= i < n - 2 ==> cp[..n][2..][i] == cp[2..][i];
      forall m | n < m <= |cp| ensures !IsLiteral(cp[..m]) {
        if IsLiteral(cp[..m]) { LiteralChars(cp[..m], 1); }
        if IsHexadecimal(cp[..m]) { LiteralChars(cp[..m], n); }
      }
    } else {
      var base := if cp[0] == '0' then 8 else 10;
      DigitsCounted(cp[1..], base);
      assert n < |cp| ==> cp[n] == cp[1..][n - 1];
      assert forall i :: 1 <= i < n ==> cp[..n][i] == cp[1..][i - 1];
      forall m | n < m <= |cp| ensures !IsLiteral(cp[..m]) { LongerIsNone(cp, n, base, m); }
    }
  }

  lemma {:induction false} LongerIsNone(cp: string, n: nat, base: nat, m: nat)
    requires 0 < n < m <= |cp| && '0' <= cp[0] <= '9' && base == (if cp[0] == '0' then 8 else 10)
    requires !(cp[0] == '0' && 2 < |cp| && (cp[1] == 'x' || cp[1] == 'X') && IsDigitOf(cp[2], 16))
    requires !IsDigitOf(cp[n], base)
    ensures !IsLiteral(cp[..m])
  {
    if IsLiteral(cp[..m]) {
      LiteralChars(cp[..m], n);
      if IsHexadecimal(cp[..m]) { LiteralChars(cp[..m], 2); }
    }
  }

  // A literal ends at a character that no literal contains.
  lemma {:induction false} LiteralStops(d: string, t: string)
    requires IsLiteral(d) && (!NameChar(At(t, 0)) || Suffix(At(t, 0)))
    ensures NumberLength(d + t) == |d|
  {
    var cp := d + t;
    var n := NumberLength(cp);
    assert cp[0] == d[0] && cp[..|d|] == d;
    LongestLiteralIsRead(cp);
    if n > |d| { LiteralChars(cp[..n], |d|); }
  }

  lemma {:induction false} VariableStops(b: Blanks, name: string, t: string)
    requires IsName(name) && !IsVarLetter(At(t, 0))
    ensures ParseVariable(b + (name + t)) == Done(t, name)
  {
    SkipBlanks(b, name + t);
    assert (name + t)[0] == name[0] && (name + t)[1..] == name[1..] + t;
    WordOf(name[1..], t);
    assert [name[0]] + name[1..] == name;
    assert (name + t)[|name|..] == t;
  }

  // Text behind blanks parses as the text itself.
  lemma {:induction false} LeadingBlanks<V>(g: Meaning<V>, b: Blanks, t: string, k: nat)
    requires k <= 11
    ensures ParseLevel(g, b + t, k) == ParseLevel(g, t, k)
    decreases k
  {
    SkipBlanks(b, t);
    if k > 0 { LeadingBlanks(g, b, t, k - 1); }
  }

  // ---------------------------------------------------------------- what may follow

  // How an operand begins.
  predicate StartsOperand(c: char) {
    IsVarFirstLetter(c) || IsDigit(c) || c == '(' || c == '!' || c == '-' || c == '~' || c == '#'
  }

  predicate Begins(t: string) {
    t == [] || StartsOperand(t[0])
  }

  lemma {:induction false} ShowBegins(p: Phrase, tail: string)
    requires Accepted(p, tail)
    ensures Begins(Show(p, tail))
    decreases p
  {
    match p {
      case Infix(left, b1, op, b2, right) => ShowBegins(left, b1 + (OpText(op) + (b2 + Show(right, tail))));
      case Equation(left, b1, b2, right) => ShowBegins(left, b1 + ("=" + (b2 + Show(right, tail))));
      case Ternary(cond, b1, b2, yes, b3, b4, no) =>
        ShowBegins(cond, b1 + ("?" + (b2 + Show(yes, b3 + (":" + (b4 + Show(no, tail)))))));
      case _ => OperandBegins(p, tail);
    }
  }

  lemma {:induction false} OperandBegins(p: Phrase, tail: string)
    requires Accepted(p, tail) && !p.Infix? && !p.Equation? && !p.Ternary?
    ensures Begins(Show(p, tail))
  {
  }

  // An expression read at level k ends here: no token of its levels, no longer word or number.
  predicate Stops(k: nat, tail: string) {
    && !IsVarLetter(At(tail, 0))
    && (forall m :: 1 <= m <= k && m <= 10 ==> TokenAt(m, SkipSpace(tail)) == NoToken)
    && (k >= 11 ==> At(SkipSpace(tail), 0) != '?')
  }

  lemma {:induction false} BlankFirst(b: Blanks, t: string)
    requires b != [] || !IsVarLetter(At(t, 0))
    ensures !IsVarLetter(At(b + t, 0))
  {
    if b == [] { assert b + t == t; } else { assert b[0] in b; }
  }

  // A closing parenthesis, a colon, a question mark or the end of the text stops every operator.
  lemma {:induction false} PunctuationStops(b: Blanks, t: string)
    requires (t == [] || t[0] == ')' || t[0] == ':' || t[0] == '?')
    ensures SkipSpace(b + t) == t && Stops(10, b + t)
    ensures (t == [] || t[0] != '?') ==> Stops(11, b + t)
  {
    SkipBlanks(b, t);
    BlankFirst(b, t);
  }

  // How an operator may be spelt.
  predicate Spells(o: string, op: Binary) {
    o == OpText(op) || (op == Same && o == "=")
  }

  // At its own level an operator is the token; tighter levels see none.
  lemma {:induction false} OperatorToken(op: Binary, o: string, t: string, m: nat)
    requires Spells(o, op) && 1 <= m <= LevelOf(op) && |o| <= |t| && t[..|o|] == o
    requires |o| == 1 ==> At(t, 1) == '\0' || IsSpace(At(t, 1)) || StartsOperand(At(t, 1))
    ensures TokenAt(m, t) == if m == LevelOf(op) then Token(op, |o|) else NoToken
  {
    assert t[0] == o[0] && At(t, 0) == t[0];
    if |o| == 2 { assert t[1] == o[1] && At(t, 1) == t[1]; }
  }

  // An operator stops every tighter level, and its own level takes exactly it.
  lemma {:induction false} OperatorStops(op: Binary, o: string, b: Blanks, before: Blanks, x: string)
    requires Spells(o, op) && Begins(x)
    ensures var t := o + (b + x);
      && SkipSpace(before + t) == t && Stops(LevelOf(op) - 1, before + t)
      && TokenAt(LevelOf(op), t) == Token(op, |o|) && t[|o|..] == b + x
  {
    var y := b + x;
    var t := o + y;
    assert At(y, 0) == '\0' || IsSpace(At(y, 0)) || StartsOperand(At(y, 0)) by {
      if b == [] { assert y == x; } else { assert y[0] == b[0] && b[0] in b; }
    }
    assert t[..|o|] == o && (|o| == 1 ==> At(t, 1) == At(y, 0));
    forall m | 1 <= m <= LevelOf(op)
      ensures TokenAt(m, t) == if m == LevelOf(op) then Token(op, |o|) else NoToken
    {
      OperatorToken(op, o, t, m);
    }
    OperatorIsNoOperand(op, o);
    assert t[0] == o[0];
    SkipBlanks(before, t);
    BlankFirst(before, t);
  }

  lemma {:induction false} OperatorIsNoOperand(op: Binary, o: string)
    requires Spells(o, op)
    ensures 1 <= |o| <= 2 && !IsVarLetter(o[0]) && !IsSpace(o[0])
  {
  }

  function OpOf(p: Phrase): Binary
    requires p.Infix? || p.Equation?
  {
    if p.Infix? then p.iop else Same
  }

  function Spelling(p: Phrase): string
    requires p.Infix? || p.Equation?
  {
    if p.Infix? then OpText(p.iop) else "="
  }

  // ---------------------------------------------------------------- reading the text back

  // What has been read is worth v, and the cursor is in front of tail, or of what follows its blanks.
  predicate IsRead<V(==)>(r: Parsed<V>, k: nat, tail: string, v: V) {
    r.Done? && r.val == v && if k == 0 then SkipSpace(r.cp) == SkipSpace(tail) else r.cp == SkipSpace(tail)
  }

  // What has been read at level k, and how the next level goes on behind it.
  ghost predicate Reads<V>(g: Meaning<V>, cp: string, k: nat, tail: string, v: V)
    requires k <= 11
  {
    IsRead(ParseLevel(g, cp, k), k, tail, v) && (k < 11 ==> GoesOn(g, cp, k + 1, tail, v))
  }

  ghost predicate GoesOn<V>(g: Meaning<V>, cp: string, k: nat, tail: string, v: V)
    requires 0 < k <= 11
  {
    ParseLevel(g, cp, k) == Continue(g, SkipSpace(tail), k, v)
  }

  /** At every level, a phrase is read as exactly its tree's value, up to what follows it. */
  lemma {:induction false} ReadsText<V>(g: Meaning<V>, p: Phrase, k: nat, tail: string)
    requires Accepted(p, tail) && Grouped(p, ToTheRight) && Height(p) <= k <= 11 && Stops(k, tail)
    ensures Reads(g, Show(p, tail), k, tail, Eval(g, Tree(p)))
    decreases p, k, 3
  {
    ReadsAtLevel(g, p, k, tail);
    if k < 11 { LevelGoesOn(g, Show(p, tail), k, tail, Eval(g, Tree(p))); }
  }

  lemma {:induction false} ReadsAtLevel<V>(g: Meaning<V>, p: Phrase, k: nat, tail: string)
    requires Accepted(p, tail) && Grouped(p, ToTheRight) && Height(p) <= k <= 11 && Stops(k, tail)
    ensures IsRead(ParseLevel(g, Show(p, tail), k), k, tail, Eval(g, Tree(p)))
    decreases p, k, 2
  {
    if k == 0 {
      ReadsOperand(g, p, tail);
    } else if k == Height(p) {
      if p.Infix? || p.Equation? { ReadsBinary(g, p, tail); } else { ReadsChoice(g, p, tail); }
    } else {
      ReadsText(g, p, k - 1, tail);
      NothingToTake(g, Show(p, tail), k, tail, Eval(g, Tree(p)));
    }
  }

  // Where no token of level k follows, the level takes nothing more.
  lemma {:induction false} NothingToTake<V>(g: Meaning<V>, cp: string, k: nat, tail: string, v: V)
    requires 0 < k <= 11 && Stops(k, tail) && Reads(g, cp, k - 1, tail, v)
    ensures IsRead(ParseLevel(g, cp, k), k, tail, v)
  {
    assert GoesOn(g, cp, k, tail, v);
  }

  lemma {:induction false} ReadsParenthesised<V>(g: Meaning<V>, p: Phrase, tail: string)
    requires Accepted(p, tail) && Grouped(p, ToTheRight) && p.Paren?
    ensures ParseValue(g, Show(p, tail)) == Done(tail, Eval(g, Tree(p)))
    decreases p, 0, 0
  {
    var close := p.b2 + (")" + tail);
    var inside := p.b1 + Show(p.inner, close);
    assert ("(" + inside)[1..] == inside;
    PunctuationStops(p.b2, ")" + tail);
    ReadsText(g, p.inner, 11, close);
    LeadingBlanks(g, p.b1, Show(p.inner, close), 11);
    assert (")" + tail)[1..] == tail;
  }

  // What belongs to the operands of a binary operator.
  lemma {:induction false} OperandsOf(p: Phrase, tail: string)
    requires Accepted(p, tail) && (p.Infix? || p.Equation?)
    ensures var t := p.b1 + (Spelling(p) + (p.b2 + Show(p.right, tail)));
      && Show(p, tail) == Show(p.left, t) && Accepted(p.left, t) && Accepted(p.right, tail)
  {
  }

  lemma {:induction false} OperandLevels<V>(g: Meaning<V>, p: Phrase)
    requires Grouped(p, ToTheRight) && (p.Infix? || p.Equation?)
    ensures Height(p) == LevelOf(OpOf(p)) && Height(p.left) <= Height(p) - 1 && Height(p.right) <= Height(p)
    ensures Grouped(p.left, ToTheRight) && Grouped(p.right, ToTheRight) && Spells(Spelling(p), OpOf(p))
    ensures Eval(g, Tree(p)) == g.binary(OpOf(p), Eval(g, Tree(p.left)), Eval(g, Tree(p.right)))
  {
  }

  lemma {:induction false} ReadsBinary<V>(g: Meaning<V>, p: Phrase, tail: string)
    requires Accepted(p, tail) && Grouped(p, ToTheRight) && (p.Infix? || p.Equation?) && Stops(Height(p), tail)
    ensures IsRead(ParseLevel(g, Show(p, tail), Height(p)), Height(p), tail, Eval(g, Tree(p)))
    decreases p, Height(p), 1
  {
    OperandsOf(p, tail);
    OperandLevels(g, p);
    RightBegins(p, tail);
    OperatorStops(OpOf(p), Spelling(p), p.b2, p.b1, Show(p.right, tail));
    ReadsText(g, p.left, Height(p) - 1, p.b1 + (Spelling(p) + (p.b2 + Show(p.right, tail))));
    ReadsText(g, p.right, Height(p), tail);
    ReadsBothOperands(g, p, tail);
  }

  lemma {:induction false} RightBegins(p: Phrase, tail: string)
    requires Accepted(p, tail) && (p.Infix? || p.Equation?)
    ensures Begins(Show(p.right, tail))
  {
    ShowBegins(p.right, tail);
  }

  lemma {:induction false} ReadsBothOperands<V>(g: Meaning<V>, p: Phrase, tail: string)
    requires Accepted(p, tail) && Grouped(p, ToTheRight) && (p.Infix? || p.Equation?)
    requires var t := Spelling(p) + (p.b2 + Show(p.right, tail));
      ParseLevel(g, Show(p, tail), Height(p)) == Continue(g, t, Height(p), Eval(g, Tree(p.left)))
    requires IsRead(ParseLevel(g, Show(p.right, tail), Height(p)), Height(p), tail, Eval(g, Tree(p.right)))
    ensures IsRead(ParseLevel(g, Show(p, tail), Height(p)), Height(p), tail, Eval(g, Tree(p)))
  {
    OperandLevels(g, p);
    RightBegins(p, tail);
    OperatorStops(OpOf(p), Spelling(p), p.b2, p.b1, Show(p.right, tail));
    ReadsRightOperand(g, OpOf(p), Spelling(p), Spelling(p) + (p.b2 + Show(p.right, tail)), p.b2, Show(p.right, tail),
                      SkipSpace(tail), Eval(g, Tree(p.left)), Eval(g, Tree(p.right)));
  }

  // Behind what a level has read, the switch of the next goes on.
  lemma {:induction false} LevelGoesOn<V>(g: Meaning<V>, cp: string, k: nat, tail: string, left: V)
    requires k < 11 && IsRead(ParseLevel(g, cp, k), k, tail, left)
    ensures ParseLevel(g, cp, k + 1) == Continue(g, SkipSpace(tail), k + 1, left)
  {
  }

  lemma {:induction false} ReadsRightOperand<V>(g: Meaning<V>, op: Binary, o: string, t: string, b: Blanks,
                                                right: string, rest: string, x: V, y: V)
    requires TokenAt(LevelOf(op), t) == Token(op, |o|) && |o| <= |t| && t[|o|..] == b + right
    requires ParseLevel(g, right, LevelOf(op)) == Done(rest, y)
    ensures Continue(g, t, LevelOf(op), x) == Done(rest, g.binary(op, x, y))
  {
    LeadingBlanks(g, b, right, LevelOf(op));
  }

  lemma {:induction false} BranchesOf<V>(g: Meaning<V>, p: Phrase, tail: string)
    requires Accepted(p, tail) && Grouped(p, ToTheRight) && p.Ternary?
    ensures var no := ":" + (p.b4 + Show(p.no, tail));
      var yes := "?" + (p.b2 + Show(p.yes, p.b3 + no));
      && Show(p, tail) == Show(p.cond, p.b1 + yes) && Accepted(p.cond, p.b1 + yes) && Accepted(p.yes, p.b3 + no)
      && Accepted(p.no, tail)
    ensures Height(p.cond) <= 10 && Grouped(p.cond, ToTheRight) && Grouped(p.yes, ToTheRight)
    ensures Grouped(p.no, ToTheRight)
    ensures Eval(g, Tree(p)) == g.choice(Eval(g, Tree(p.cond)), Eval(g, Tree(p.yes)), Eval(g, Tree(p.no)))
  {
  }

  lemma {:induction false} ReadsCondition<V>(g: Meaning<V>, p: Phrase, tail: string)
    requires Accepted(p, tail) && Grouped(p, ToTheRight) && p.Ternary?
    ensures var yes := "?" + (p.b2 + Show(p.yes, p.b3 + (":" + (p.b4 + Show(p.no, tail)))));
      ParseLevel(g, Show(p, tail), 11) == Continue(g, yes, 11, Eval(g, Tree(p.cond)))
    decreases p, 10, 0
  {
    BranchesOf(g, p, tail);
    var yes := "?" + (p.b2 + Show(p.yes, p.b3 + (":" + (p.b4 + Show(p.no, tail)))));
    PunctuationStops(p.b1, yes);
    ReadsText(g, p.cond, 10, p.b1 + yes);
  }

  lemma {:induction false} ReadsChoice<V>(g: Meaning<V>, p: Phrase, tail: string)
    requires Accepted(p, tail) && Grouped(p, ToTheRight) && p.Ternary? && Stops(11, tail)
    ensures IsRead(ParseLevel(g, Show(p, tail), 11), 11, tail, Eval(g, Tree(p)))
    decreases p, 11, 0
  {
    ReadsCondition(g, p, tail);
    BranchesOf(g, p, tail);
    var no := ":" + (p.b4 + Show(p.no, tail));
    PunctuationStops(p.b3, no);
    ReadsText(g, p.yes, 11, p.b3 + no);
    ReadsText(g, p.no, 11, tail);
    ReadsArms(g, p.b2, Show(p.yes, p.b3 + no), p.b4, Show(p.no, tail), SkipSpace(tail), Eval(g, Tree(p.cond)),
              Eval(g, Tree(p.yes)), Eval(g, Tree(p.no)));
  }

  lemma {:induction false} ReadsArms<V>(g: Meaning<V>, b2: Blanks, yes: string, b4: Blanks, no: string,
                                        rest: string, x: V, y: V, z: V)
    requires ParseLevel(g, yes, 11) == Done(":" + (b4 + no), y) && ParseLevel(g, no, 11) == Done(rest, z)
    ensures Continue(g, "?" + (b2 + yes), 11, x) == Done(rest, g.choice(x, y, z))
  {
    assert ("?" + (b2 + yes))[1..] == b2 + yes && (":" + (b4 + no))[1..] == b4 + no;
    LeadingBlanks(g, b2, yes, 11);
    LeadingBlanks(g, b4, no, 11);
    assert SkipSpace(":" + (b4 + no)) == ":" + (b4 + no);
  }

  lemma {:induction false} ReadsOperand<V>(g: Meaning<V>, p: Phrase, tail: string)
    requires Accepted(p, tail) && Grouped(p, ToTheRight) && Height(p) == 0 && !IsVarLetter(At(tail, 0))
    ensures IsRead(ParseValue(g, Show(p, tail)), 0, tail, Eval(g, Tree(p)))
    decreases p, 0, 1
  {
    match p {
      case Nothing =>
      case Prefix(_, _, _) => ReadsPrefixed(g, p, tail);
      case Paren(_, _, _) => ReadsParenthesised(g, p, tail);
      case _ => ReadsAtom(g, p, tail);
    }
  }

  lemma {:induction false} ReadsPrefixed<V>(g: Meaning<V>, p: Phrase, tail: string)
    requires Accepted(p, tail) && Grouped(p, ToTheRight) && p.Prefix? && !IsVarLetter(At(tail, 0))
    ensures IsRead(ParseValue(g, Show(p, tail)), 0, tail, Eval(g, Tree(p)))
    decreases p, 0, 0
  {
    ReadsText(g, p.arg, 0, tail);
    ReadsUnary(g, p.op, Show(p.arg, tail), p.b1);
  }

  predicate IsAtom(p: Phrase) {
    p.Literal? || p.Ident? || p.DefinedIn? || p.DefinedBare? || p.Query?
  }

  lemma {:induction false} ReadsAtom<V>(g: Meaning<V>, p: Phrase, tail: string)
    requires Accepted(p, tail) && IsAtom(p) && !IsVarLetter(At(tail, 0))
    ensures IsRead(ParseValue(g, Show(p, tail)), 0, tail, Eval(g, Tree(p)))
  {
    match p {
      case Literal(digits, qualifiers) => ReadsNumber(g, digits, qualifiers, tail);
      case Ident(name) => ReadsVariable(g, name, tail);
      case Query(b1, question, b2, b3, answers) => ReadsAssertion(g, b1, question, b2, b3, answers, tail);
      case _ => ReadsOperator(g, p, tail);
    }
  }

  lemma {:induction false} ReadsOperator<V>(g: Meaning<V>, p: Phrase, tail: string)
    requires Accepted(p, tail) && (p.DefinedIn? || p.DefinedBare?) && !IsVarLetter(At(tail, 0))
    ensures IsRead(ParseValue(g, Show(p, tail)), 0, tail, Eval(g, Tree(p)))
  {
    match p {
      case DefinedIn(b1, b2, name, b3) => ReadsDefined(g, b1, b2, name, b3, tail);
      case DefinedBare(b1, name) => ReadsDefinedBare(g, b1, name, tail);
    }
  }

  lemma {:induction false} ReadsUnary<V>(g: Meaning<V>, op: Unary, x: string, b: Blanks)
    ensures ParseValue(g, UnaryText(op) + (b + x)) == ApplyUnary(g, op, ParseValue(g, x))
  {
    var cp := UnaryText(op) + (b + x);
    assert SkipSpace(cp) == cp && cp[1..] == b + x;
    LeadingBlanks(g, b, x, 0);
  }

  lemma {:induction false} ReadsNumber<V>(g: Meaning<V>, digits: string, qualifiers: Qualifiers, tail: string)
    requires IsLiteral(digits) && !IsVarLetter(At(tail, 0))
    ensures ParseValue(g, digits + (qualifiers + tail)) == Done(tail, g.number(digits))
  {
    var rest := qualifiers + tail;
    if qualifiers == [] {
      assert rest == tail;
    } else {
      assert qualifiers[0] in qualifiers && rest[0] == qualifiers[0];
    }
    LiteralStops(digits, rest);
    QualifiersStop(qualifiers, tail);
    assert (digits + rest)[|digits|..] == rest && (digits + rest)[..|digits|] == digits;
    assert !DefinedAt(digits + rest) by { assert (digits + rest)[0] == digits[0] && "defined"[0] == 'd'; }
    ValueOfWord(g, digits + rest);
  }

  // An operand that begins like an identifier or a number.
  lemma {:induction false} ValueOfWord<V>(g: Meaning<V>, cp: string)
    requires cp != [] && IsVarLetter(cp[0])
    ensures ParseValue(g, cp) == ParseWord(g, cp)
  {
    LetterIsNoOperator(cp[0]);
    assert SkipSpace(cp) == cp;
  }

  lemma {:induction false} LetterIsNoOperator(c: char)
    requires IsVarLetter(c)
    ensures !IsSpace(c) && c != '(' && c != '!' && c != '-' && c != '~' && c != '#' && c != '\''
  {
  }

  lemma {:induction false} ReadsVariable<V>(g: Meaning<V>, name: string, tail: string)
    requires IsName(name) && !Captured(name) && !IsVarLetter(At(tail, 0))
    ensures ParseValue(g, name + tail) == Done(tail, g.variable(name))
  {
    NameAtCursor(name, tail);
    ValueOfWord(g, name + tail);
    WordIsVariable(g, name, tail);
  }

  lemma {:induction false} WordIsVariable<V>(g: Meaning<V>, name: string, tail: string)
    requires IsName(name) && !Captured(name) && !IsVarLetter(At(tail, 0))
    ensures name + tail != [] && ParseWord(g, name + tail) == Done(tail, g.variable(name))
  {
    NameAtCursor(name, tail);
    CaptureIsLocal(name, tail);
    CapturedExactly(name);
  }

  lemma {:induction false} NameAtCursor(name: string, tail: string)
    requires IsName(name) && !IsVarLetter(At(tail, 0))
    ensures (name + tail)[0] == name[0]
    ensures [name[0]] + Word((name + tail)[1..]) == name && (name + tail)[|name|..] == tail
  {
    assert (name + tail)[1..] == name[1..] + tail;
    WordOf(name[1..], tail);
    assert [name[0]] + name[1..] == name;
  }

  lemma {:induction false} CapturedExactly(name: string)
    requires forall c :: c in name ==> NameChar(c)
    ensures DefinedAt(name) <==> Captured(name)
  {
    if |name| > 7 {
      assert name[7] in name && name[..8] == name[..7] + [name[7]] && "defined_" == "defined" + ['_'];
    } else if |name| == 7 {
      assert name[..7] == name;
    }
  }

  // Whether a name is taken for the operator does not depend on what follows it.
  lemma {:induction false} CaptureIsLocal(name: string, tail: string)
    requires (forall c :: c in name ==> IsVarLetter(c)) && !IsVarLetter(At(tail, 0))
    ensures DefinedAt(name + tail) == DefinedAt(name)
  {
    var w := name + tail;
    if 7 <= |name| {
      assert w[..7] == name[..7];
      assert At(w, 7) == if |name| > 7 then name[7] else At(tail, 0);
    } else {
      assert |w| >= 7 ==> w[..7][|name|] == At(tail, 0);
      assert forall i :: 0 <= i < 7 ==> IsVarLetter("defined"[i]);
    }
  }

  // Behind the word defined, its operand is read.
  lemma {:induction false} ValueOfDefined<V>(g: Meaning<V>, rest: string)
    requires !IsAlnum(At(rest, 0))
    ensures ParseValue(g, "defined" + rest) == ParseDefined(g, rest)
  {
    var whole := "defined" + rest;
    WordDefined(rest);
    ValueOfWord(g, whole);
  }

  lemma {:induction false} WordDefined(rest: string)
    requires !IsAlnum(At(rest, 0))
    ensures var whole := "defined" + rest; whole[0] == 'd' && DefinedAt(whole) && whole[7..] == rest
  {
    assert At("defined" + rest, 7) == At(rest, 0);
  }

  lemma {:induction false} ReadsDefined<V>(g: Meaning<V>, b1: Blanks, b2: Blanks, name: string, b3: Blanks,
                                           tail: string)
    requires IsName(name)
    ensures ParseValue(g, Show(DefinedIn(b1, b2, name, b3), tail)) == Done(tail, g.defined(name))
  {
    var open := "(" + (b2 + (name + (b3 + (")" + tail))));
    ShowDefined(b1, b2, name, b3, tail);
    ValueInParentheses(g, b1, open);
    DefinedInParentheses(g, b1, b2, name, b3, tail);
  }

  lemma {:induction false} ShowDefined(b1: Blanks, b2: Blanks, name: string, b3: Blanks, tail: string)
    requires IsName(name)
    ensures Show(DefinedIn(b1, b2, name, b3), tail) ==
      "defined" + (b1 + ("(" + (b2 + (name + (b3 + (")" + tail))))))
  {
  }

  lemma {:induction false} ValueInParentheses<V>(g: Meaning<V>, b1: Blanks, open: string)
    requires open != [] && open[0] == '('
    ensures ParseValue(g, "defined" + (b1 + open)) == ParseDefined(g, b1 + open)
  {
    BlankFirst(b1, open);
    ValueOfDefined(g, b1 + open);
  }

  lemma {:induction false} DefinedInParentheses<V>(g: Meaning<V>, b1: Blanks, b2: Blanks, name: string, b3: Blanks,
                                                   tail: string)
    requires IsName(name)
    ensures ParseDefined(g, b1 + ("(" + (b2 + (name + (b3 + (")" + tail)))))) == Done(tail, g.defined(name))
  {
    var close := ")" + tail;
    var open := "(" + (b2 + (name + (b3 + close)));
    SkipBlanks(b1, open);
    NameInParentheses(b2, name, b3, close);
    ReadsInParentheses(g, b1 + open, open, name, b3 + close, close);
    assert close[1..] == tail;
  }

  lemma {:induction false} NameInParentheses(b2: Blanks, name: string, b3: Blanks, close: string)
    requires IsName(name) && close != [] && close[0] == ')'
    ensures var open := "(" + (b2 + (name + (b3 + close)));
      open[0] == '(' && ParseVariable(open[1..]) == Done(b3 + close, name) && SkipSpace(b3 + close) == close
  {
    var inside := b2 + (name + (b3 + close));
    assert ("(" + inside)[1..] == inside;
    PunctuationStops(b3, close);
    VariableStops(b2, name, b3 + close);
  }

  lemma {:induction false} ReadsInParentheses<V>(g: Meaning<V>, cp: string, open: string, name: string, rest: string,
                                                 close: string)
    requires open != [] && open[0] == '(' && SkipSpace(cp) == SkipSpace(open)
    requires ParseVariable(open[1..]) == Done(rest, name) && SkipSpace(rest) == close && close != [] && close[0] == ')'
    ensures ParseDefined(g, cp) == Done(close[1..], g.defined(name))
  {
    assert SkipSpace(open) == open;
  }

  lemma {:induction false} ReadsDefinedBare<V>(g: Meaning<V>, b1: Blanks, name: string, tail: string)
    requires IsName(name) && (b1 == [] ==> name[0] == '_') && !IsVarLetter(At(tail, 0))
    ensures ParseValue(g, Show(DefinedBare(b1, name), tail)) == Done(SkipSpace(tail), g.defined(name))
  {
    BareBegins(b1, name, tail);
    ValueOfDefined(g, b1 + (name + tail));
    ReadsBareOperand(g, b1, name, tail);
  }

  lemma {:induction false} BareBegins(b1: Blanks, name: string, tail: string)
    requires IsName(name) && (b1 == [] ==> name[0] == '_')
    ensures !IsAlnum(At(b1 + (name + tail), 0))
    ensures Show(DefinedBare(b1, name), tail) == "defined" + (b1 + (name + tail))
  {
    var rest := b1 + (name + tail);
    if b1 == [] { assert rest[0] == name[0]; } else { assert rest[0] == b1[0] && b1[0] in b1; }
  }

  lemma {:induction false} ReadsBareOperand<V>(g: Meaning<V>, b: Blanks, name: string, tail: string)
    requires IsName(name) && !IsVarLetter(At(tail, 0))
    ensures ParseDefined(g, b + (name + tail)) == Done(SkipSpace(tail), g.defined(name))
  {
    var at := name + tail;
    SkipBlanks(b, at);
    assert at[0] == name[0];
    assert SkipSpace(at) == at;
    ReadsBareName(name, tail);
    assert ParseVariable(at) == Done(tail, name);
  }

  lemma {:induction false} ReadsBareName(name: string, tail: string)
    requires IsName(name) && !IsVarLetter(At(tail, 0))
    ensures ParseVariable(name + tail) == Done(tail, name)
  {
    VariableStops("", name, tail);
    assert "" + (name + tail) == name + tail;
  }

  lemma {:induction false} ReadsAssertion<V>(g: Meaning<V>, b1: Blanks, question: string, b2: Blanks, b3: Blanks,
                                             answers: Answers, tail: string)
    requires IsName(question) && AreAccepted(answers)
    ensures ParseValue(g, Show(Query(b1, question, b2, b3, answers), tail)) == Done(tail, g.one)
  {
    var list := "(" + (b3 + ShowAnswers(answers, tail));
    ReadsList('(', b3, answers, tail);
    ReadsQuery(g, b1, question, b2, list, tail);
    assert Show(Query(b1, question, b2, b3, answers), tail) == "#" + (b1 + (question + (b2 + list)));
  }

  lemma {:induction false} ReadsQuery<V>(g: Meaning<V>, b1: Blanks, question: string, b2: Blanks, list: string,
                                         tail: string)
    requires IsName(question) && list != [] && list[0] == '(' && ParseList(list) == Some(")" + tail)
    ensures ParseValue(g, "#" + (b1 + (question + (b2 + list)))) == Done(tail, g.one)
  {
    var cp := b1 + (question + (b2 + list));
    assert ("#" + cp)[1..] == cp && (")" + tail)[1..] == tail;
    ValueOfAssertion(g, "#" + cp);
    ReadsQuestion(g, b1, question, b2, list, ")" + tail);
  }

  lemma {:induction false} ReadsQuestion<V>(g: Meaning<V>, b1: Blanks, question: string, b2: Blanks, list: string,
                                            close: string)
    requires IsName(question) && list != [] && list[0] == '(' && ParseList(list) == Some(close) && close != []
    ensures ParseAssertion(g, b1 + (question + (b2 + list))) == Done(close[1..], g.one)
  {
    BlankFirst(b2, list);
    VariableStops(b1, question, b2 + list);
    SkipBlanks(b2, list);
    AssertionOfList(g, b1 + (question + (b2 + list)), question, b2 + list, list, close);
  }

  lemma {:induction false} AssertionOfList<V>(g: Meaning<V>, cp: string, question: string, rest: string, list: string,
                                              close: string)
    requires ParseVariable(cp) == Done(rest, question) && SkipSpace(rest) == SkipSpace(list)
    requires list != [] && list[0] == '(' && ParseList(list) == Some(close) && close != []
    ensures ParseAssertion(g, cp) == Done(close[1..], g.one)
  {
    assert SkipSpace(list) == list;
  }

  lemma {:induction false} ValueOfAssertion<V>(g: Meaning<V>, cp: string)
    requires cp != [] && cp[0] == '#'
    ensures ParseValue(g, cp) == ParseAssertion(g, cp[1..])
  {
    assert SkipSpace(cp) == cp;
  }

  lemma {:induction false} ReadsList(separator: char, b: Blanks, a: Answers, tail: string)
    requires AreAccepted(a)
    ensures ParseList([separator] + (b + ShowAnswers(a, tail))) == Some(")" + tail)
    decreases a
  {
    var next := if a.Last? then ")" + tail else [a.separator] + (a.b2 + ShowAnswers(a.rest, tail));
    ListStep(separator, b, a.name, a.b1, next);
    if a.More? { ReadsList(a.separator, a.b2, a.rest, tail); }
  }

  lemma {:induction false} ListStep(separator: char, b: Blanks, name: string, b1: Blanks, next: string)
    requires IsName(name) && next != [] && !IsSpace(next[0]) && (b1 == [] ==> !IsVarLetter(next[0]))
    ensures ParseList([separator] + (b + (name + (b1 + next)))) ==
      if next[0] == ')' then Some(next) else ParseList(next)
  {
    var s := [separator] + (b + (name + (b1 + next)));
    assert s[1..] == b + (name + (b1 + next));
    BlankFirst(b1, next);
    VariableStops(b, name, b1 + next);
    SkipBlanks(b1, next);
    assert SkipSpace(next) == next;
  }

  // A phrase with blanks around it.
  function Line(before: Blanks, p: Phrase, behind: Blanks): string {
    before + Show(p, behind)
  }

  /** An accepted phrase that is grouped for nesting to the right is consumed to its end and yields its
      tree's value, for every meaning of operators and operands. */
  lemma {:induction false} AcceptedReadsBack<V>(g: Meaning<V>, before: Blanks, p: Phrase, behind: Blanks)
    requires Accepted(p, behind) && Grouped(p, ToTheRight)
    ensures ParseIfExpression(g, Line(before, p, behind)) == Done("", Eval(g, Tree(p)))
  {
    assert behind + [] == behind;
    PunctuationStops(behind, []);
    ReadsText(g, p, 11, behind);
    LeadingBlanks(g, before, Show(p, behind), 11);
  }

  /** For every phrase written as in C and grouped for nesting to the right, whatever its blanks and
      superfluous parentheses, without a captured identifier, and for every meaning of operators and
      operands: the evaluator consumes the whole text and yields the tree's value. */
  lemma {:induction false} IfExpressionReadsBack<V>(g: Meaning<V>, before: Blanks, p: Phrase, behind: Blanks)
    requires Written(p) && Grouped(p, ToTheRight) && Uncaptured(Tree(p))
    ensures ParseIfExpression(g, Line(before, p, behind)) == Done("", Eval(g, Tree(p)))
  {
    WrittenIsAccepted(p, behind);
    AcceptedReadsBack(g, before, p, behind);
  }
}
