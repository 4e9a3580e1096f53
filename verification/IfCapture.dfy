/** Exactly which expressions the #if evaluator reads back: those in which no identifier is taken
    for the operator defined. The guard is the one in config/makedepend/ifparser.c:207. */
module IfCapture {
  import opened Names
  import opened IfParser
  import opened IfPrinter

  // A meaning whose values say whether a captured name has been evaluated as a variable.
  function Spy(): Meaning<bool> {
    Meaning(false, false, _ => false, name => Captured(name), _ => false,
            (_, x) => x, (_, x, y) => x || y, (x, y, z) => x || y || z)
  }

  predicate Saw(r: Parsed<bool>) {
    r.Done? && r.val
  }

  // The word in front of the cursor is taken for the operator, or it is not captured.
  lemma {:induction false} WordIsNotCaptured(cp: string)
    requires cp != [] && IsVarFirstLetter(cp[0]) && !DefinedAt(cp)
    ensures !Captured([cp[0]] + Word(cp[1..]))
  {
    var name := [cp[0]] + Word(cp[1..]);
    WordAt(cp);
    CaptureIsLocal(name, cp[|name|..]);
    CapturedExactly(name);
  }

  /** On any text whatever, and at every level, the evaluator never evaluates a captured name. */
  lemma {:induction false} NeverEvaluatesCaptured(cp: string, k: nat)
    requires k <= 11
    ensures !Saw(ParseLevel(Spy(), cp, k))
    decreases |cp|, k + 1
  {
    if k == 0 {
      ValueNeverCaptured(cp);
    } else {
      NeverEvaluatesCaptured(cp, k - 1);
      var left := ParseLevel(Spy(), cp, k - 1);
      if left.Done? { ContinuationNeverCaptured(SkipSpace(left.cp), k); }
    }
  }

  lemma {:induction false} ContinuationNeverCaptured(cp: string, k: nat)
    requires 0 < k <= 11
    ensures !Saw(Continue(Spy(), cp, k, false))
    decreases |cp|, 0
  {
    if k == 11 {
      if cp != [] && cp[0] == '?' {
        var yes := ParseLevel(Spy(), cp[1..], 11);
        NeverEvaluatesCaptured(cp[1..], 11);
        if yes.Done? {
          var at := SkipSpace(yes.cp);
          if at != [] { NeverEvaluatesCaptured(at[1..], 11); }
        }
      }
    } else {
      var t := TokenAt(k, cp);
      if t.Token? { NeverEvaluatesCaptured(cp[t.len..], k); }
    }
  }

  lemma {:induction false} ValueNeverCaptured(cp: string)
    ensures !Saw(ParseValue(Spy(), cp))
    decreases |cp|, 0
  {
    var at := SkipSpace(cp);
    if at != [] {
      match at[0]
      case '(' => NeverEvaluatesCaptured(at[1..], 11);
      case '!' => ValueNeverCaptured(at[1..]);
      case '-' => ValueNeverCaptured(at[1..]);
      case '~' => ValueNeverCaptured(at[1..]);
      case _ => if IsVarFirstLetter(at[0]) && !DefinedAt(at) { WordIsNotCaptured(at); }
    }
  }

  lemma {:induction false} SpyOnTree(e: Expr)
    ensures Eval(Spy(), e) == !Uncaptured(e)
  {
    match e {
      case Un(_, arg) => SpyOnTree(arg);
      case Bin(_, left, right) => SpyOnTree(left); SpyOnTree(right);
      case Choice(cond, yes, no) => SpyOnTree(cond); SpyOnTree(yes); SpyOnTree(no);
      case _ =>
    }
  }

  /** The round trip holds, whatever the operators and operands mean, if and only if no variable of
      the tree is taken for the operator defined. */
  lemma {:induction false} ReadsBackExactlyWhenUncaptured(before: Blanks, p: Phrase, behind: Blanks)
    requires Written(p) && Grouped(p, ToTheRight)
    ensures Uncaptured(Tree(p)) <==>
      forall g: Meaning<bool> :: ParseIfExpression(g, Line(before, p, behind)) == Done("", Eval(g, Tree(p)))
  {
    if Uncaptured(Tree(p)) {
      forall g: Meaning<bool> ensures ParseIfExpression(g, Line(before, p, behind)) == Done("", Eval(g, Tree(p))) {
        IfExpressionReadsBack(g, before, p, behind);
      }
    } else {
      NeverEvaluatesCaptured(Line(before, p, behind), 11);
      SpyOnTree(Tree(p));
      assert ParseIfExpression(Spy(), Line(before, p, behind)) != Done("", Eval(Spy(), Tree(p)));
    }
  }

  /** What becomes of a captured name: parse_value takes its tail, from the underscore on, for the
      operand of the operator. */
  lemma {:induction false} CapturedNameIsSplit<V>(g: Meaning<V>, name: string, tail: string)
    requires IsName(name) && Captured(name) && |name| > 7 && !IsVarLetter(At(tail, 0))
    ensures ParseValue(g, name + tail) == Done(SkipSpace(tail), g.defined(name[7..]))
  {
    TailOfName(name, tail);
    ReadsBareOperand(g, "", name[7..], tail);
    assert "" + (name[7..] + tail) == name[7..] + tail;
    ValueOfWord(g, name + tail);
  }

  lemma {:induction false} TailOfName(name: string, tail: string)
    requires IsName(name) && Captured(name) && |name| > 7 && !IsVarLetter(At(tail, 0))
    ensures DefinedAt(name + tail) && (name + tail)[7..] == name[7..] + tail && IsName(name[7..])
  {
    CaptureIsLocal(name, tail);
    assert name[7] in name;
  }
}
