/** What the #if evaluator makes of a text written for C's nesting (section 6.5 of ISO/IEC 9899:1999), where
    operators of one level in a row nest to the left: the tree it reads, and when the value is C's. */
module IfNesting {
  import opened Names
  import opened IfParser
  import opened IfPrinter

  // ---------------------------------------------------------------- the same text, nested to the right

  // Every run x op y op2 z of one level, with its blanks, turned from the left to the right.
  function Turned(p: Phrase): Phrase
    decreases p, 0
  {
    match p
    case Prefix(op, b1, arg) => Prefix(op, b1, Turned(arg))
    case Infix(left, b1, op, b2, right) => Onto(left, b1, op, b2, Turned(right))
    case Ternary(cond, b1, b2, yes, b3, b4, no) => Ternary(Turned(cond), b1, b2, Turned(yes), b3, b4, Turned(no))
    case Paren(b1, inner, b2) => Paren(b1, Turned(inner), b2)
    case _ => p
  }

  // The run left in front of right, which is turned already.
  function Onto(left: Phrase, b1: Blanks, op: Binary, b2: Blanks, right: Phrase): Phrase
    decreases left, 1
  {
    if left.Infix? && LevelOf(left.iop) == LevelOf(op) then
      Onto(left.left, left.b1, left.iop, left.b2, Infix(Turned(left.right), b1, op, b2, right))
    else Infix(Turned(left), b1, op, b2, right)
  }

  lemma {:induction false} ShowTurned(p: Phrase, tail: string)
    ensures Show(Turned(p), tail) == Show(p, tail)
    decreases p, 0
  {
    match p {
      case Prefix(_, _, arg) => ShowTurned(arg, tail);
      case Infix(left, b1, op, b2, right) =>
        ShowTurned(right, tail);
        ShowOnto(left, b1, op, b2, Turned(right), tail);
      case Ternary(cond, b1, b2, yes, b3, b4, no) =>
        ShowTurned(no, tail);
        ShowTurned(yes, b3 + (":" + (b4 + Show(no, tail))));
        ShowTurned(cond, b1 + ("?" + (b2 + Show(yes, b3 + (":" + (b4 + Show(no, tail)))))));
      case Paren(_, inner, b2) => ShowTurned(inner, b2 + (")" + tail));
      case _ =>
    }
  }

  lemma {:induction false} ShowOnto(left: Phrase, b1: Blanks, op: Binary, b2: Blanks, right: Phrase, tail: string)
    ensures Show(Onto(left, b1, op, b2, right), tail) == Show(left, b1 + (OpText(op) + (b2 + Show(right, tail))))
    decreases left, 1
  {
    var behind := b1 + (OpText(op) + (b2 + Show(right, tail)));
    ShowInfix(Turned(left), b1, op, b2, right, tail);
    if left.Infix? && LevelOf(left.iop) == LevelOf(op) {
      var inner := Infix(Turned(left.right), b1, op, b2, right);
      ShowInfix(Turned(left.right), b1, op, b2, right, tail);
      ShowTurned(left.right, behind);
      ShowOnto(left.left, left.b1, left.iop, left.b2, inner, tail);
      ShowInfix(left.left, left.b1, left.iop, left.b2, left.right, behind);
    } else {
      ShowTurned(left, behind);
    }
  }

  lemma {:induction false} ShowInfix(left: Phrase, b1: Blanks, op: Binary, b2: Blanks, right: Phrase, tail: string)
    ensures Show(Infix(left, b1, op, b2, right), tail) == Show(left, b1 + (OpText(op) + (b2 + Show(right, tail))))
  {
  }

  ghost predicate Fit(p: Phrase, n: Nesting) {
    Written(p) && Grouped(p, n) && Uncaptured(Tree(p))
  }

  lemma {:induction false} TurnedFits(p: Phrase)
    requires Fit(p, ToTheLeft)
    ensures Fit(Turned(p), ToTheRight) && Height(Turned(p)) == Height(p)
    decreases p, 0
  {
    match p {
      case Prefix(_, _, arg) => TurnedFits(arg);
      case Infix(left, b1, op, b2, right) =>
        TurnedFits(right);
        OntoFits(left, b1, op, b2, Turned(right));
      case Ternary(cond, b1, b2, yes, b3, b4, no) =>
        TurnedFits(cond);
        TurnedFits(yes);
        TurnedFits(no);
        TernaryFits(p, Turned(cond), Turned(yes), Turned(no));
      case Paren(_, inner, _) => TurnedFits(inner);
      case _ =>
    }
  }

  lemma {:induction false} TernaryFits(p: Phrase, cond: Phrase, yes: Phrase, no: Phrase)
    requires p.Ternary? && Fit(cond, ToTheRight) && Height(cond) <= 10 && Fit(yes, ToTheRight) && Fit(no, ToTheRight)
    ensures var q := Ternary(cond, p.b1, p.b2, yes, p.b3, p.b4, no); Fit(q, ToTheRight) && Height(q) == 11
  {
  }

  // A text of one level less on the left, and none higher on the right.
  lemma {:induction false} InfixFits(left: Phrase, b1: Blanks, op: Binary, b2: Blanks, right: Phrase)
    requires Fit(left, ToTheRight) && Height(left) < LevelOf(op)
    requires Fit(right, ToTheRight) && Height(right) <= LevelOf(op)
    ensures var p := Infix(left, b1, op, b2, right); Fit(p, ToTheRight) && Height(p) == LevelOf(op)
  {
  }

  lemma {:induction false} OntoFits(left: Phrase, b1: Blanks, op: Binary, b2: Blanks, right: Phrase)
    requires Fit(left, ToTheLeft) && Height(left) <= LevelOf(op)
    requires Fit(right, ToTheRight) && Height(right) <= LevelOf(op)
    ensures var p := Onto(left, b1, op, b2, right); Fit(p, ToTheRight) && Height(p) == LevelOf(op)
    decreases left, 1
  {
    if left.Infix? && LevelOf(left.iop) == LevelOf(op) {
      TurnedFits(left.right);
      InfixFits(Turned(left.right), b1, op, b2, right);
      OntoFits(left.left, left.b1, left.iop, left.b2, Infix(Turned(left.right), b1, op, b2, right));
    } else {
      TurnedFits(left);
      InfixFits(Turned(left), b1, op, b2, right);
    }
  }

  /** A text grouped for C's nesting is read as the tree in which all its runs are turned, whatever its
      blanks and parentheses and whatever operators and operands mean. */
  lemma {:induction false} ReadsTurned<V>(g: Meaning<V>, before: Blanks, p: Phrase, behind: Blanks)
    requires Fit(p, ToTheLeft)
    ensures ParseIfExpression(g, Line(before, p, behind)) == Done("", Eval(g, Tree(Turned(p))))
  {
    TurnedFits(p);
    ShowTurned(p, behind);
    IfExpressionReadsBack(g, before, Turned(p), behind);
  }

  // ---------------------------------------------------------------- when the value is C's

  // Somewhere an operator has one of its own level, without parentheses, for its left operand.
  predicate HasRun(p: Phrase) {
    match p
    case Prefix(_, _, arg) => HasRun(arg)
    case Infix(left, _, op, _, right) =>
      (left.Infix? && LevelOf(left.iop) == LevelOf(op)) || HasRun(left) || HasRun(right)
    case Ternary(cond, _, _, yes, _, _, no) => HasRun(cond) || HasRun(yes) || HasRun(no)
    case Paren(_, inner, _) => HasRun(inner)
    case _ => false
  }

  lemma {:induction false} TurnedWithoutRun(p: Phrase)
    requires !HasRun(p)
    ensures Turned(p) == p
  {
    match p {
      case Prefix(_, _, arg) => TurnedWithoutRun(arg);
      case Infix(left, _, _, _, right) =>
        TurnedWithoutRun(left);
        TurnedWithoutRun(right);
      case Ternary(cond, _, _, yes, _, _, no) =>
        TurnedWithoutRun(cond);
        TurnedWithoutRun(yes);
        TurnedWithoutRun(no);
      case Paren(_, inner, _) => TurnedWithoutRun(inner);
      case _ =>
    }
  }

  datatype Weight = Weight(size: nat, lean: nat)

  // A meaning that tells nestings apart: how large a tree is, and how much of it hangs on the left.
  function Scales(): Meaning<Weight> {
    Meaning(
      Weight(1, 0), Weight(1, 0), _ => Weight(1, 0), _ => Weight(1, 0), _ => Weight(1, 0),
      (_, x: Weight) => x,
      (_, x: Weight, y: Weight) => Weight(x.size + y.size + 1, x.lean + y.lean + x.size),
      (x: Weight, y: Weight, z: Weight) => Weight(x.size + y.size + z.size, x.lean + y.lean + z.lean))
  }

  function Weigh(p: Phrase): Weight {
    Eval(Scales(), Tree(p))
  }

  // Turning never makes a phrase lean more to the left, and less if there is anything to turn.
  ghost predicate Lighter(p: Phrase, q: Phrase, strictly: bool) {
    Weigh(p).size == Weigh(q).size && Weigh(p).lean <= Weigh(q).lean && (strictly ==> Weigh(p).lean < Weigh(q).lean)
  }

  lemma {:induction false} TurnedIsLighter(p: Phrase)
    ensures Lighter(Turned(p), p, HasRun(p))
    decreases p, 0
  {
    match p {
      case Prefix(_, _, arg) => TurnedIsLighter(arg);
      case Infix(left, b1, op, b2, right) =>
        TurnedIsLighter(right);
        OntoIsLighter(left, b1, op, b2, Turned(right));
      case Ternary(cond, _, _, yes, _, _, no) =>
        TurnedIsLighter(cond);
        TurnedIsLighter(yes);
        TurnedIsLighter(no);
      case Paren(_, inner, _) => TurnedIsLighter(inner);
      case _ =>
    }
  }

  lemma {:induction false} WeighInfix(left: Phrase, b1: Blanks, op: Binary, b2: Blanks, right: Phrase)
    ensures var x, y := Weigh(left), Weigh(right);
      Weigh(Infix(left, b1, op, b2, right)) == Weight(x.size + y.size + 1, x.lean + y.lean + x.size)
  {
  }

  lemma {:induction false} OntoIsLighter(left: Phrase, b1: Blanks, op: Binary, b2: Blanks, right: Phrase)
    ensures Lighter(Onto(left, b1, op, b2, right), Infix(left, b1, op, b2, right),
                    HasRun(left) || (left.Infix? && LevelOf(left.iop) == LevelOf(op)))
    decreases left, 1
  {
    WeighInfix(left, b1, op, b2, right);
    if left.Infix? && LevelOf(left.iop) == LevelOf(op) {
      var inner := Infix(Turned(left.right), b1, op, b2, right);
      TurnedIsLighter(left.right);
      WeighInfix(Turned(left.right), b1, op, b2, right);
      WeighInfix(left.left, left.b1, left.iop, left.b2, left.right);
      WeighInfix(left.left, left.b1, left.iop, left.b2, inner);
      OntoIsLighter(left.left, left.b1, left.iop, left.b2, inner);
    } else {
      TurnedIsLighter(left);
      WeighInfix(Turned(left), b1, op, b2, right);
    }
  }

  /** The value is C's, whatever operators and operands mean, if and only if no operator has one of its
      own level for its left operand. */
  lemma {:induction false} ValueIsCsExactlyWithoutRun(before: Blanks, p: Phrase, behind: Blanks)
    requires Fit(p, ToTheLeft)
    ensures !HasRun(p) <==>
      forall g: Meaning<Weight> :: ParseIfExpression(g, Line(before, p, behind)) == Done("", Eval(g, Tree(p)))
  {
    if !HasRun(p) {
      forall g: Meaning<Weight> ensures ParseIfExpression(g, Line(before, p, behind)) == Done("", Eval(g, Tree(p))) {
        ValueWithoutRunIsCs(g, before, p, behind);
      }
    } else {
      ReadsTurned(Scales(), before, p, behind);
      TurnedIsLighter(p);
      assert ParseIfExpression(Scales(), Line(before, p, behind)) != Done("", Eval(Scales(), Tree(p)));
    }
  }

  // The one half for values of any kind.
  lemma {:induction false} ValueWithoutRunIsCs<V>(g: Meaning<V>, before: Blanks, p: Phrase, behind: Blanks)
    requires Fit(p, ToTheLeft) && !HasRun(p)
    ensures ParseIfExpression(g, Line(before, p, behind)) == Done("", Eval(g, Tree(p)))
  {
    ReadsTurned(g, before, p, behind);
    TurnedWithoutRun(p);
  }

  lemma {:induction false} TurnedTriple(x: Phrase, y: Phrase, z: Phrase, op: Binary, b: Blanks)
    requires Height(x) < LevelOf(op) && !HasRun(x) && !HasRun(y) && !HasRun(z)
    ensures Turned(Infix(Infix(x, b, op, b, y), b, op, b, z)) == Infix(x, b, op, b, Infix(y, b, op, b, z))
  {
    TurnedWithoutRun(x);
    TurnedWithoutRun(y);
    TurnedWithoutRun(z);
    var q := Infix(y, b, op, b, z);
    assert Onto(Infix(x, b, op, b, y), b, op, b, z) == Onto(x, b, op, b, q) == Infix(x, b, op, b, q);
  }

  /** For instance x - y - z: the evaluator's value is C's exactly when z is zero. */
  lemma {:induction false} SubtractionsAgree(g: Meaning<int>, x: Phrase, y: Phrase, z: Phrase, b: Blanks)
    requires forall m, n :: g.binary(Minus, m, n) == m - n
    requires Fit(x, ToTheLeft) && Fit(y, ToTheLeft) && Fit(z, ToTheLeft)
    requires Height(x) < LevelOf(Minus) && Height(y) < LevelOf(Minus) && Height(z) < LevelOf(Minus)
    requires !HasRun(x) && !HasRun(y) && !HasRun(z)
    ensures var p := Infix(Infix(x, b, Minus, b, y), b, Minus, b, z);
      ParseIfExpression(g, Line(b, p, b)) == Done("", Eval(g, Tree(p))) <==> Eval(g, Tree(z)) == 0
  {
    var p := Infix(Infix(x, b, Minus, b, y), b, Minus, b, z);
    TripleFits(x, y, z, Minus, b);
    ReadsTurned(g, b, p, b);
    TurnedTriple(x, y, z, Minus, b);
    Subtractions(g, x, y, z, b);
  }

  lemma {:induction false} TripleFits(x: Phrase, y: Phrase, z: Phrase, op: Binary, b: Blanks)
    requires Fit(x, ToTheLeft) && Fit(y, ToTheLeft) && Fit(z, ToTheLeft)
    requires Height(x) < LevelOf(op) && Height(y) < LevelOf(op) && Height(z) < LevelOf(op)
    ensures Fit(Infix(Infix(x, b, op, b, y), b, op, b, z), ToTheLeft)
  {
  }

  lemma {:induction false} Subtractions(g: Meaning<int>, x: Phrase, y: Phrase, z: Phrase, b: Blanks)
    requires forall m, n :: g.binary(Minus, m, n) == m - n
    ensures var u, v, w := Eval(g, Tree(x)), Eval(g, Tree(y)), Eval(g, Tree(z));
      && Eval(g, Tree(Infix(Infix(x, b, Minus, b, y), b, Minus, b, z))) == (u - v) - w
      && Eval(g, Tree(Infix(x, b, Minus, b, Infix(y, b, Minus, b, z)))) == u - (v - w)
  {
  }

  // ---------------------------------------------------------------- trees with the fewest parentheses

  function Level(e: Expr): nat {
    match e
    case Bin(op, _, _) => LevelOf(op)
    case Choice(_, _, _) => 11
    case _ => 0
  }

  // The phrase for a tree where level k is expected, with one choice of blanks in all gaps.
  function Fewest(e: Expr, k: nat, n: Nesting, b: Blanks): Phrase
    requires Printable(e)
    decreases e, 1
  {
    if Level(e) <= k then Plain(e, n, b) else Paren(b, Plain(e, n, b), b)
  }

  function Plain(e: Expr, n: Nesting, b: Blanks): Phrase
    requires Printable(e)
    decreases e, 0
  {
    match e
    case Number(digits, qualifiers) => Literal(digits, qualifiers)
    case Variable(name) => Ident(name)
    case Defined(name) => DefinedIn(b, b, name, b)
    case Assertion(question, answers) => Query(b, question, b, b, Listed(answers, b))
    case Un(op, arg) => Prefix(op, b, Fewest(arg, 0, n, b))
    case Bin(op, left, right) =>
      Infix(Fewest(left, LeftLevel(op, n), n, b), b, op, b, Fewest(right, RightLevel(op, n), n, b))
    case Choice(cond, yes, no) =>
      Ternary(Fewest(cond, 10, n, b), b, b, Fewest(yes, 11, n, b), b, b, Fewest(no, 11, n, b))
  }

  function Listed(names: seq<string>, b: Blanks): Answers
    requires names != []
  {
    if |names| == 1 then Last(names[0], b) else More(names[0], b, ',', b, Listed(names[1..], b))
  }

  lemma {:induction false} ListedNames(names: seq<string>, b: Blanks)
    requires names != [] && forall a :: a in names ==> IsName(a)
    ensures NamesIn(Listed(names, b)) == names && AreWritten(Listed(names, b))
  {
    if |names| > 1 { ListedNames(names[1..], b); }
  }

  function Parens(p: Phrase): nat {
    match p
    case Prefix(_, _, arg) => Parens(arg)
    case Infix(left, _, _, _, right) => Parens(left) + Parens(right)
    case Ternary(cond, _, _, yes, _, _, no) => Parens(cond) + Parens(yes) + Parens(no)
    case Paren(_, inner, _) => 1 + Parens(inner)
    case _ => 0
  }

  /** Every printable tree has a phrase for either nesting. */
  lemma {:induction false} FewestIsGrouped(e: Expr, k: nat, n: Nesting, b: Blanks)
    requires Printable(e)
    ensures var p := Fewest(e, k, n, b); Tree(p) == e && Written(p) && Grouped(p, n) && Height(p) <= k
    decreases e, 1
  {
    PlainIsGrouped(e, n, b);
  }

  lemma {:induction false} PlainIsGrouped(e: Expr, n: Nesting, b: Blanks)
    requires Printable(e)
    ensures var p := Plain(e, n, b); Tree(p) == e && Written(p) && Grouped(p, n) && Height(p) == Level(e)
    decreases e, 0
  {
    match e {
      case Assertion(_, answers) => ListedNames(answers, b);
      case Un(op, arg) => FewestIsGrouped(arg, 0, n, b);
      case Bin(op, left, right) =>
        FewestIsGrouped(left, LeftLevel(op, n), n, b);
        FewestIsGrouped(right, RightLevel(op, n), n, b);
      case Choice(cond, yes, no) =>
        FewestIsGrouped(cond, 10, n, b);
        FewestIsGrouped(yes, 11, n, b);
        FewestIsGrouped(no, 11, n, b);
      case _ =>
    }
  }

  // ... and no phrase for it has fewer parentheses.
  lemma {:induction false} NoneHasFewer(p: Phrase, k: nat, n: Nesting, b: Blanks)
    requires Written(p) && Grouped(p, n) && Height(p) <= k <= 11 && Printable(Tree(p))
    ensures Parens(Fewest(Tree(p), k, n, b)) <= Parens(p)
    decreases p
  {
    match p {
      case Prefix(_, _, arg) => NoneHasFewer(arg, 0, n, b);
      case Infix(left, _, op, _, right) =>
        NoneHasFewer(left, LeftLevel(op, n), n, b);
        NoneHasFewer(right, RightLevel(op, n), n, b);
      case Ternary(cond, _, _, yes, _, _, no) =>
        NoneHasFewer(cond, 10, n, b);
        NoneHasFewer(yes, 11, n, b);
        NoneHasFewer(no, 11, n, b);
      case Paren(_, inner, _) => NoneHasFewer(inner, 11, n, b);
      case _ =>
    }
  }

  /** Printed with the fewest parentheses that C needs, a tree is read as itself, whatever operators and
      operands mean, if and only if no node has one of its own level for its left child. */
  lemma {:induction false} TreeIsReadAsCExactlyWhen(e: Expr, b: Blanks)
    requires Printable(e) && Uncaptured(e)
    ensures !LeansLeft(e) <==>
      forall g: Meaning<Weight> :: ParseIfExpression(g, Line(b, Fewest(e, 11, ToTheLeft, b), b)) == Done("", Eval(g, e))
  {
    FewestIsGrouped(e, 11, ToTheLeft, b);
    RunsOfFewest(e, 11, b);
    ValueIsCsExactlyWithoutRun(b, Fewest(e, 11, ToTheLeft, b), b);
  }

  predicate LeansLeft(e: Expr) {
    match e
    case Un(_, arg) => LeansLeft(arg)
    case Bin(op, left, right) => (left.Bin? && LevelOf(left.bop) == LevelOf(op)) || LeansLeft(left) || LeansLeft(right)
    case Choice(cond, yes, no) => LeansLeft(cond) || LeansLeft(yes) || LeansLeft(no)
    case _ => false
  }

  lemma {:induction false} RunsOfFewest(e: Expr, k: nat, b: Blanks)
    requires Printable(e)
    ensures HasRun(Fewest(e, k, ToTheLeft, b)) <==> LeansLeft(e)
    decreases e, 1
  {
    RunsOfPlain(e, b);
  }

  lemma {:induction false} RunsOfPlain(e: Expr, b: Blanks)
    requires Printable(e)
    ensures HasRun(Plain(e, ToTheLeft, b)) <==> LeansLeft(e)
    decreases e, 0
  {
    match e {
      case Un(_, arg) => RunsOfFewest(arg, 0, b);
      case Bin(op, left, right) =>
        RunsOfFewest(left, LevelOf(op), b);
        RunsOfFewest(right, LevelOf(op) - 1, b);
        StaysBare(left, op, b);
        RunsOfBin(op, left, right, b);
      case Choice(cond, yes, no) =>
        RunsOfFewest(cond, 10, b);
        RunsOfFewest(yes, 11, b);
        RunsOfFewest(no, 11, b);
      case _ =>
    }
  }

  lemma {:induction false} RunsOfBin(op: Binary, left: Expr, right: Expr, b: Blanks)
    requires Printable(left) && Printable(right)
    requires var p, q := Fewest(left, LevelOf(op), ToTheLeft, b), Fewest(right, LevelOf(op) - 1, ToTheLeft, b);
      && (HasRun(p) <==> LeansLeft(left)) && (HasRun(q) <==> LeansLeft(right))
      && ((p.Infix? && LevelOf(p.iop) == LevelOf(op)) <==> (left.Bin? && LevelOf(left.bop) == LevelOf(op)))
    ensures HasRun(Plain(Bin(op, left, right), ToTheLeft, b)) <==> LeansLeft(Bin(op, left, right))
  {
  }

  lemma {:induction false} StaysBare(left: Expr, op: Binary, b: Blanks)
    requires Printable(left)
    ensures var p := Fewest(left, LevelOf(op), ToTheLeft, b);
      (p.Infix? && LevelOf(p.iop) == LevelOf(op)) <==> (left.Bin? && LevelOf(left.bop) == LevelOf(op))
  {
  }
}
