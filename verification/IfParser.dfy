/** The #if evaluator of config/makedepend/ifparser.c: recursive descent over the text, one
    function a precedence level, the value computed on the way. */
module IfParser {
  import opened Names

  // ---------------------------------------------------------------- characters (C locale)

  predicate IsAlpha(c: char) {
    'a' <= c <= 'z' || 'A' <= c <= 'Z'
  }

  predicate IsAlnum(c: char) {
    IsAlpha(c) || IsDigit(c)
  }

  predicate IsVarFirstLetter(c: char) {
    IsAlpha(c) || c == '_'
  }

  predicate IsVarLetter(c: char) {
    IsAlnum(c) || c == '_'
  }

  // ---------------------------------------------------------------- operators and their meaning

  datatype Unary = Not | Negate | Complement

  datatype Binary =
    | Times | Divide | Modulo | Plus | Minus | ShiftLeft | ShiftRight
    | AtMost | LessThan | AtLeast | GreaterThan | Same | Differs
    | BitAnd | BitXor | BitOr | And | Or

  // What the operators and operands mean. For the program V is long and the operators are C's;
  // the parser does not depend on it.
  datatype Meaning<!V> = Meaning(
    zero: V,
    one: V,
    number: string -> V,           // strtol of a literal's text
    variable: string -> V,         // eval_variable
    defined: string -> V,          // eval_defined
    unary: (Unary, V) -> V,
    binary: (Binary, V, V) -> V,
    choice: (V, V, V) -> V)

  // A cursor into a C string is the rest of the text. A parse function returns the cursor behind
  // what it read and the value, or NULL.
  datatype Parsed<+V> = Failed | Done(cp: string, val: V)

  // ---------------------------------------------------------------- scanning

  function SkipSpace(cp: string): (r: string)
    ensures |r| <= |cp| && (r != [] ==> !IsSpace(r[0]))
  {
    if cp != [] && IsSpace(cp[0]) then SkipSpace(cp[1..]) else cp
  }

  // The run of letters, digits and underscores at the cursor.
  function Word(cp: string): (w: string)
    ensures |w| <= |cp| && cp == w + cp[|w|..]
    ensures forall c :: c in w ==> IsVarLetter(c)
    ensures !IsVarLetter(At(cp, |w|))
  {
    if cp != [] && IsVarLetter(cp[0]) then
      var w := Word(cp[1..]);
      assert cp[1..][|w|..] == cp[1 + |w|..];
      [cp[0]] + w
    else []
  }

  predicate IsDigitOf(c: char, base: nat) {
    if base == 16 then IsDigit(c) || 'a' <= c <= 'f' || 'A' <= c <= 'F'
    else if base == 8 then '0' <= c <= '7'
    else IsDigit(c)
  }

  function DigitCount(cp: string, base: nat): (n: nat)
    ensures n <= |cp|
  {
    if cp != [] && IsDigitOf(cp[0], base) then 1 + DigitCount(cp[1..], base) else 0
  }

  // How many characters strtol with base 0 reads.
  function NumberLength(cp: string): (n: nat)
    requires cp != [] && IsDigit(cp[0])
    ensures 0 < n <= |cp|
  {
    if cp[0] == '0' then
      if (At(cp, 1) == 'x' || At(cp, 1) == 'X') && IsDigitOf(At(cp, 2), 16)
      then 2 + DigitCount(cp[2..], 16)
      else 1 + DigitCount(cp[1..], 8)
    else 1 + DigitCount(cp[1..], 10)
  }

  predicate IsQualifier(c: char) {
    c == 'U' || c == 'u' || c == 'L' || c == 'l'
  }

  // The trailing qualifiers of a number.
  function SkipQualifiers(cp: string): (r: string)
    ensures |r| <= |cp|
  {
    if cp != [] && IsQualifier(cp[0]) then SkipQualifiers(cp[1..]) else cp
  }

  // parse_variable: the name, and the cursor behind it.
  function ParseVariable(cp: string): (r: Parsed<string>)
    ensures r.Done? ==> |r.cp| < |cp|
  {
    var at := SkipSpace(cp);
    if at != [] && IsVarFirstLetter(at[0]) then
      var name := [at[0]] + Word(at[1..]);
      Done(at[|name|..], name)
    else Failed
  }

  // ---------------------------------------------------------------- the operators of each level

  datatype Token = NoToken | Token(op: Binary, len: nat) | BadToken

  // What the switch of level k sees at a non-blank: 1 parse_product, 2 parse_sum, 3 parse_shift,
  // 4 parse_inequality, 5 parse_equality, 6 parse_band, 7 parse_bxor, 8 parse_bor, 9 parse_land,
  // 10 parse_lor.
  function TokenAt(k: nat, cp: string): (t: Token)
    ensures t.Token? ==> 0 < t.len <= |cp|
  {
    var c, d := At(cp, 0), At(cp, 1);
    match k
    case 1 => if c == '*' then Token(Times, 1) else if c == '/' then Token(Divide, 1)
              else if c == '%' then Token(Modulo, 1) else NoToken
    case 2 => if c == '+' then Token(Plus, 1) else if c == '-' then Token(Minus, 1) else NoToken
    case 3 => if c == '<' && d == '<' then Token(ShiftLeft, 2)
              else if c == '>' && d == '>' then Token(ShiftRight, 2) else NoToken
    case 4 => if c == '<' then if d == '=' then Token(AtMost, 2) else Token(LessThan, 1)
              else if c == '>' then if d == '=' then Token(AtLeast, 2) else Token(GreaterThan, 1)
              else NoToken
    case 5 => if c == '=' then Token(Same, if d == '=' then 2 else 1)
              else if c == '!' && d == '=' then Token(Differs, 2) else NoToken
    case 6 => if c == '&' && d != '&' then Token(BitAnd, 1) else NoToken
    case 7 => if c == '^' then Token(BitXor, 1) else NoToken
    case 8 => if c == '|' && d != '|' then Token(BitOr, 1) else NoToken
    case 9 => if c == '&' then if d == '&' then Token(And, 2) else BadToken else NoToken
    case 10 => if c == '|' then if d == '|' then Token(Or, 2) else BadToken else NoToken
    case _ => NoToken
  }

  // ---------------------------------------------------------------- the parser

  // The word defined stands at the cursor, and neither a letter nor a digit behind it.
  predicate DefinedAt(cp: string) {
    7 <= |cp| && cp[..7] == "defined" && !IsAlnum(At(cp, 7))
  }

  function ApplyUnary<V>(g: Meaning<V>, op: Unary, r: Parsed<V>): Parsed<V> {
    if r.Failed? then Failed else Done(r.cp, g.unary(op, r.val))
  }

  // parse_value
  function ParseValue<V>(g: Meaning<V>, cp: string): (r: Parsed<V>)
    ensures r.Done? ==> |r.cp| <= |cp|
    decreases |cp|, 0
  {
    var at := SkipSpace(cp);
    if at == [] then Done(at, g.zero)
    else match at[0]
      case '(' =>
        var r := ParseLevel(g, at[1..], 11);
        if r.Failed? then Failed
        else
          var e := SkipSpace(r.cp);
          if e != [] && e[0] == ')' then Done(e[1..], r.val) else Failed
      case '!' => ApplyUnary(g, Not, ParseValue(g, at[1..]))
      case '-' => ApplyUnary(g, Negate, ParseValue(g, at[1..]))
      case '~' => ApplyUnary(g, Complement, ParseValue(g, at[1..]))
      case '#' => ParseAssertion(g, at[1..])
      case '\'' => Failed
      case _ => ParseWord(g, at)
  }

  // The operator defined, a number or a variable.
  function ParseWord<V>(g: Meaning<V>, cp: string): (r: Parsed<V>)
    requires cp != []
    ensures r.Done? ==> |r.cp| <= |cp|
  {
    if DefinedAt(cp) then ParseDefined(g, cp[7..])
    else if IsDigit(cp[0]) then
      var n := NumberLength(cp);
      Done(SkipQualifiers(cp[n..]), g.number(cp[..n]))
    else if IsVarFirstLetter(cp[0]) then
      var name := [cp[0]] + Word(cp[1..]);
      Done(cp[|name|..], g.variable(name))
    else Failed
  }

  // The operand of defined, with or without parentheses.
  function ParseDefined<V>(g: Meaning<V>, cp: string): (r: Parsed<V>)
    ensures r.Done? ==> |r.cp| <= |cp|
  {
    var at := SkipSpace(cp);
    var paren := at != [] && at[0] == '(';
    var v := ParseVariable(if paren then at[1..] else at);
    if v.Failed? then Failed
    else
      var e := SkipSpace(v.cp);
      if !paren then Done(e, g.defined(v.val))
      else if e != [] && e[0] == ')' then Done(e[1..], g.defined(v.val))
      else Failed
  }

  // # variable '(' variable-list ')', which counts as true.
  function ParseAssertion<V>(g: Meaning<V>, cp: string): (r: Parsed<V>)
    ensures r.Done? ==> |r.cp| <= |cp|
  {
    var v := ParseVariable(cp);
    if v.Failed? then Failed
    else
      var at := SkipSpace(v.cp);
      if at != [] && at[0] == '(' then
        var e := ParseList(at);
        if e.None? then Failed else Done(e.value[1..], g.one)
      else Failed
  }

  // The do-while loop: names, each behind one character, up to the closing parenthesis.
  function ParseList(cp: string): (r: Option<string>)
    requires cp != []
    ensures r.Some? ==> 0 < |r.value| < |cp|
    decreases |cp|
  {
    var v := ParseVariable(cp[1..]);
    if v.Failed? then None
    else
      var e := SkipSpace(v.cp);
      if e == [] then None else if e[0] == ')' then Some(e) else ParseList(e)
  }

  // parse_product to parse_lor for k from 1 to 10, parse_cond for 11; level 0 is parse_value.
  function ParseLevel<V>(g: Meaning<V>, cp: string, k: nat): (r: Parsed<V>)
    requires k <= 11
    ensures r.Done? ==> |r.cp| <= |cp|
    decreases |cp|, k + 1
  {
    if k == 0 then ParseValue(g, cp)
    else
      var left := ParseLevel(g, cp, k - 1);
      if left.Failed? then Failed else Continue(g, SkipSpace(left.cp), k, left.val)
  }

  // The switch of level k, behind its left operand.
  function Continue<V>(g: Meaning<V>, cp: string, k: nat, left: V): (r: Parsed<V>)
    requires 0 < k <= 11
    ensures r.Done? ==> |r.cp| <= |cp|
    decreases |cp|, 0
  {
    if k == 11 then
      if cp != [] && cp[0] == '?' then ParseArms(g, cp[1..], left) else Done(cp, left)
    else match TokenAt(k, cp)
      case NoToken => Done(cp, left)
      case BadToken => Failed
      case Token(op, len) =>
        var right := ParseLevel(g, cp[len..], k);
        if right.Failed? then Failed else Done(right.cp, g.binary(op, left, right.val))
  }

  // Both arms of a conditional expression are parsed, and so evaluated.
  function ParseArms<V>(g: Meaning<V>, cp: string, cond: V): (r: Parsed<V>)
    ensures r.Done? ==> |r.cp| <= |cp|
    decreases |cp|, 13
  {
    var yes := ParseLevel(g, cp, 11);
    if yes.Failed? then Failed
    else
      var at := SkipSpace(yes.cp);
      if at != [] && at[0] == ':' then
        var no := ParseLevel(g, at[1..], 11);
        if no.Failed? then Failed else Done(no.cp, g.choice(cond, yes.val, no.val))
      else Failed
  }

  function ParseIfExpression<V>(g: Meaning<V>, text: string): Parsed<V> {
    ParseLevel(g, text, 11)
  }
}
