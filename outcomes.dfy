/** What `evalExpression` returns, stated over the text the user typed:
    when the answer is "Error", how integral results are shown, and the
    fixed point reached by evaluating a result again. */
module Outcomes {
  import opened Results
  import opened Chars
  import opened Literals
  import opened Syntax
  import opened Grammar
  import opened Shapes
  import opened Evaluator

  lemma IntToStringNotError(n: int)
    ensures IntToString(n) != ErrorText
  {
    assert ErrorText[0] == 'E';
  }

  /** "Error" is returned exactly when parsing fails, provided the rendering
      of doubles never spells "Error" (`String.valueOf(double)` gives
      digits, a sign, a dot, an exponent, "NaN" or "Infinity"). */
  lemma ErrorExactlyOnFailure(expr: string, valueOf: Value -> string)
    requires forall v :: valueOf(v) != ErrorText
    ensures EvalText(expr, valueOf) == ErrorText <==> Evaluate(expr).Fail?
  {
    match Evaluate(expr)
    case Fail =>
    case Ok(v) =>
      if IsIntegral(v) {
        IntToStringNotError(v.x.Floor);
      }
  }

  /** Input that is empty once whitespace is removed, or that ends on an
      operator or an opening parenthesis, lacks an operand: "Error". */
  lemma MissingOperandIsError(expr: string, valueOf: Value -> string)
    requires var s := StripWhitespace(expr);
             s == [] || IsOperator(s[|s| - 1]) || s[|s| - 1] == '('
    ensures EvalText(expr, valueOf) == ErrorText
  {
    var s := StripWhitespace(expr);
    assert s == [] || !ClosesOperand(s[|s| - 1]);
    assert ParseAll(s) == Fail;
    assert Evaluate(expr) == Fail;
  }

  /** A character the parser never consumes (a letter, `%`, `=`, ...) makes
      the whole input an error, wherever it stands. */
  lemma UnexpectedCharacterIsError(expr: string, m: nat, valueOf: Value -> string)
    requires m < |expr| && !IsWhitespace(expr[m]) && !IsParserChar(expr[m])
    ensures EvalText(expr, valueOf) == ErrorText
  {
    var s := StripWhitespace(expr);
    assert expr[m] in s;
  }

  /** A `*`, `/` or `)` where an operand should start (at the beginning,
      or right after an operator or `(`, once whitespace is removed) is an
      unexpected character: "Error". */
  lemma MisplacedOperatorIsError(expr: string, m: nat, valueOf: Value -> string)
    requires var s := StripWhitespace(expr);
             m < |s| && FollowsOperand(s[m]) && (m == 0 || IsOperator(s[m - 1]) || s[m - 1] == '(')
    ensures EvalText(expr, valueOf) == ErrorText
  {
    var s := StripWhitespace(expr);
    assert m == 0 || !ClosesOperand(s[m - 1]);
    assert ParseAll(s) == Fail;
    assert Evaluate(expr) == Fail;
  }

  /** Operators and parentheses with a missing operand. */
  lemma MisplacedOperatorExamples(valueOf: Value -> string)
    ensures EvalText("*5", valueOf) == ErrorText
    ensures EvalText("2+*3", valueOf) == ErrorText
    ensures EvalText("()", valueOf) == ErrorText
    ensures EvalText("2*)", valueOf) == ErrorText
  {
    Misplaced("*5", 0, valueOf);
    Misplaced("2+*3", 2, valueOf);
    Misplaced("()", 1, valueOf);
    Misplaced("2*)", 2, valueOf);
  }

  lemma Misplaced(t: string, m: nat, valueOf: Value -> string)
    requires t in {"*5", "2+*3", "()", "2*)"}
    requires m < |t| && FollowsOperand(t[m]) && (m == 0 || IsOperator(t[m - 1]) || t[m - 1] == '(')
    ensures EvalText(t, valueOf) == ErrorText
  {
    assert forall k :: 0 <= k < |t| ==> !IsWhitespace(t[k]);
    MisplacedOperatorIsError(t, m, valueOf);
  }

  /** The remainder operator is never evaluated: any input containing `%`
      gives "Error". */
  lemma RemainderIsError(expr: string, valueOf: Value -> string)
    requires '%' in expr
    ensures EvalText(expr, valueOf) == ErrorText
  {
    var m :| 0 <= m < |expr| && expr[m] == '%';
    UnexpectedCharacterIsError(expr, m, valueOf);
  }

  /** Typed digits and dots are read as one literal: "Error" when it has
      two dots or no digit, otherwise its exact value, rendered. */
  lemma NumberInput(t: string, valueOf: Value -> string)
    requires |t| > 0 && IsNumberRun(t)
    ensures !ValidLiteral(t) ==> EvalText(t, valueOf) == ErrorText
    ensures ValidLiteral(t) ==> EvalText(t, valueOf) == Format(Real(LiteralValue(t)), valueOf)
  {
    assert StripWhitespace(t) == t;
    NumberRun(t);
  }

  /** Evaluating a printed tree gives the rendering of the tree's value. */
  lemma PrintedText(e: Expr, valueOf: Value -> string)
    requires WellFormed(e)
    ensures EvalText(Print(e), valueOf) == Format(Eval(e), valueOf)
  {
    PrintHasNoWhitespace(e);
    PrintRoundTrip(e);
  }

  /** An integer shown on the display evaluates to itself. */
  lemma IntegerEvaluatesToItself(n: int, valueOf: Value -> string)
    ensures EvalText(IntToString(n), valueOf) == IntToString(n)
  {
    var ds := NatToString(if n < 0 then -n else n);
    DigitsAreLiteral(ds);
    var e := if n < 0 then Neg(Num(ds)) else Num(ds);
    assert Print(e) == IntToString(n);
    PrintedText(e, valueOf);
    assert Eval(e) == Real(n as real);
    assert (n as real).Floor == n;
  }

  /** Pressing "=" on an integral result changes nothing. */
  lemma EqualsIdempotentOnIntegers(expr: string, valueOf: Value -> string)
    requires Evaluate(expr).Ok? && IsIntegral(Evaluate(expr).value)
    ensures EvalText(EvalText(expr, valueOf), valueOf) == EvalText(expr, valueOf)
  {
    IntegerEvaluatesToItself(Evaluate(expr).value.x.Floor, valueOf);
  }

  /** Division by zero is not an error: the double it yields is rendered. */
  lemma DivisionByZeroIsNotError(l: Expr, r: Expr, valueOf: Value -> string)
    requires WellFormed(l) && WellFormed(r) && Eval(r) == Real(0.0)
    ensures EvalText(Print(Div(l, r)), valueOf) == valueOf(NonFinite)
  {
    PrintedText(Div(l, r), valueOf);
  }

  /** "2+3*4" as a sum of products: 2, then + (3 * 4). */
  lemma PrecedenceShape() returns (sm: Sum)
    ensures SumOk(sm) && SumText(sm) == "2+3*4"
    ensures SumTree(sm) == Add(Num("2"), Mul(Num("3"), Num("4")))
  {
    var product := Product(Num("3"), [Step('*', Num("4"))]);
    sm := Sum(Product(Num("2"), []), [Addend('+', product)]);
    assert IsDigit("2"[0]) && IsDigit("3"[0]) && IsDigit("4"[0]);
    assert ProductText(product) == "3*4";
    assert ProductTree(product) == Mul(Num("3"), Num("4"));
    assert SumOk(sm);
    assert AddendsText(sm.addends) == "+3*4";
    assert SumText(sm) == "2+3*4";
    assert FoldAddends(Add(Num("2"), ProductTree(product)), sm.addends[1..]) == SumTree(sm);
  }

  /** "2+3*4" groups the product first. */
  lemma PrecedenceExample()
    ensures ParseAll("2+3*4") == Ok(Add(Num("2"), Mul(Num("3"), Num("4"))))
  {
    var sm := PrecedenceShape();
    SumOfProducts(sm);
  }

  lemma SingleDigit(ds: string)
    requires |ds| == 1 && IsDigit(ds[0])
    ensures ValidLiteral(ds) && LiteralValue(ds) == DigitValue(ds[0]) as real
  {
    DigitsAreLiteral(ds);
    assert ds[..0] == [];
  }

  lemma Unstripped(t: string)
    requires t == "2+3*4"
    ensures StripWhitespace(t) == t
  {
    forall k | 0 <= k < |t| ensures !IsWhitespace(t[k]) {
      assert t[k] in {'2', '+', '3', '*', '4'};
    }
  }

  lemma FourteenText()
    ensures IntToString(14) == "14"
  {
    assert NatToString(14) == NatToString(1) + [DigitChar(4)];
  }

  lemma PrecedenceValue()
    ensures WellFormed(Add(Num("2"), Mul(Num("3"), Num("4"))))
    ensures Eval(Add(Num("2"), Mul(Num("3"), Num("4")))) == Real(14.0)
  {
    SingleDigit("2");
    assert Eval(Num("2")) == Real(2.0);
    ThreeTimesFour();
  }

  lemma ThreeTimesFour()
    ensures WellFormed(Mul(Num("3"), Num("4")))
    ensures Eval(Mul(Num("3"), Num("4"))) == Real(12.0)
  {
    SingleDigit("3");
    SingleDigit("4");
    assert Eval(Num("3")) == Real(3.0) && Eval(Num("4")) == Real(4.0);
  }

  /** "2+3*4" shows "14": the product is taken first. */
  lemma PrecedenceShown(valueOf: Value -> string)
    ensures EvalText("2+3*4", valueOf) == "14"
  {
    var t := "2+3*4";
    Unstripped(t);
    PrecedenceExample();
    PrecedenceValue();
    var tree := Add(Num("2"), Mul(Num("3"), Num("4")));
    assert ParseAll(StripWhitespace(t)) == Ok(tree);
    assert Evaluate(t) == Ok(Real(14.0));
    assert IsIntegral(Real(14.0)) && (14.0).Floor == 14;
    FourteenText();
    assert Format(Real(14.0), valueOf) == "14";
  }

  /** "8-3-2" as a sum of products: 8, then - 3, then - 2. */
  lemma SubtractionShape() returns (sm: Sum)
    ensures SumOk(sm) && SumText(sm) == "8-3-2"
    ensures SumTree(sm) == Sub(Sub(Num("8"), Num("3")), Num("2"))
  {
    assert IsDigit("8"[0]) && IsDigit("3"[0]) && IsDigit("2"[0]);
    sm := Sum(Product(Num("8"), []),
              [Addend('-', Product(Num("3"), [])), Addend('-', Product(Num("2"), []))]);
    assert SumOk(sm);
    assert AddendsText(sm.addends[1..]) == "-2";
    assert AddendsText(sm.addends) == "-3-2";
    assert SumText(sm) == "8-3-2";
    assert FoldAddends(Sub(Num("8"), Num("3")), sm.addends[1..]) == SumTree(sm);
  }

  /** Operators of equal precedence group from the left: subtraction. */
  lemma SubtractionExample()
    ensures ParseAll("8-3-2") == Ok(Sub(Sub(Num("8"), Num("3")), Num("2")))
  {
    var sm := SubtractionShape();
    SumOfProducts(sm);
  }

  /** "8/4/2" as one product: 8, then / 4, then / 2. */
  lemma DivisionShape() returns (sm: Sum)
    ensures SumOk(sm) && SumText(sm) == "8/4/2"
    ensures SumTree(sm) == Div(Div(Num("8"), Num("4")), Num("2"))
  {
    assert IsDigit("8"[0]) && IsDigit("4"[0]) && IsDigit("2"[0]);
    var steps := [Step('/', Num("4")), Step('/', Num("2"))];
    sm := Sum(Product(Num("8"), steps), []);
    assert ProductSteps(steps);
    assert StepsText(steps[1..]) == "/2";
    assert StepsText(steps) == "/4/2";
    assert SumText(sm) == "8/4/2";
    assert FoldSteps(Div(Num("8"), Num("4")), steps[1..]) == ProductTree(sm.first);
  }

  /** Operators of equal precedence group from the left: division. */
  lemma DivisionExample()
    ensures ParseAll("8/4/2") == Ok(Div(Div(Num("8"), Num("4")), Num("2")))
  {
    var sm := DivisionShape();
    SumOfProducts(sm);
  }

  /** A missing `)` is tolerated. */
  lemma MissingCloseExample()
    ensures ParseAll("(2+3") == Ok(Add(Num("2"), Num("3")))
  {
    assert IsDigit("2"[0]) && IsDigit("3"[0]);
    var sum := Sum(Product(Num("2"), []), [Addend('+', Product(Num("3"), []))]);
    assert SumOk(sum);
    assert SumText(sum) == "2+3";
    ParenthesesGroup(sum, false);
    assert "(" + SumText(sum) + "" == "(2+3";
  }

  /** An extra `)` is an error. */
  lemma ExtraCloseExample()
    ensures ParseAll("3)") == Fail
  {
    assert IsDigit("3"[0]);
    var three := Sum(Product(Num("3"), []), []);
    assert SumText(three) == "3";
    ExtraCloseFails(three);
  }

  /** Unary signs stack: "-+-5" is 5 negated twice. */
  lemma SignsExample()
    ensures ParseAll("-+-5") == Ok(Neg(Neg(Num("5"))))
  {
    assert IsDigit("5"[0]);
    assert AreSigns("-+-");
    SignedOperand("-+-", Num("5"));
    assert "-+-" + Print(Num("5")) == "-+-5";
  }

  lemma ThirtyThreeLiteral()
    ensures ValidLiteral("33") && LiteralValue("33") == 33.0
  {
    assert IsDigit("33"[0]) && IsDigit("33"[1]);
    DigitsAreLiteral("33");
    assert "33"[..1] == "3";
    assert DigitsValue("33") == 33;
  }

  lemma ThirtyThreeText()
    ensures IntToString(33) == "33"
  {
    assert NatToString(33) == NatToString(3) + [DigitChar(3)];
  }

  lemma ThirtyThree(valueOf: Value -> string)
    ensures EvalText("33", valueOf) == "33"
  {
    ThirtyThreeLiteral();
    ThirtyThreeText();
    PrintedText(Num("33"), valueOf);
    assert Print(Num("33")) == "33";
    assert Eval(Num("33")) == Real(33.0);
    assert IsIntegral(Real(33.0)) && (33.0).Floor == 33;
    assert Format(Real(33.0), valueOf) == "33";
  }

  /** A space inside a number ends it, and the parser stops there. */
  lemma SpaceEndsNumber()
    ensures ParseAll("3 3") == Fail
  {
    var s := "3 3";
    assert IsDigit(s[0]);
    assert NumberEnd(s, 1) == 1;
    assert SkipSpaces(s, 1) == 2 by {
      assert SkipSpaces(s, 2) == 2;
    }
    assert s[..1] == "3";
    assert Factor(s, 0) == Ok(Parsed(Num("3"), 1));
    assert TermRest(s, 1, Num("3")) == Ok(Parsed(Num("3"), 2));
    assert ExpressionRest(s, 2, Num("3")) == Ok(Parsed(Num("3"), 2));
  }

  /** `evalExpression` removes the space first, so "3 3" is read as 33. */
  lemma SpacesInsideNumber(valueOf: Value -> string)
    ensures EvalText("3 3", valueOf) == "33"
  {
    var t := "3 3";
    assert StripWhitespace(t[2..]) == "3";
    assert StripWhitespace(t[1..]) == "3";
    assert StripWhitespace(t) == "33";
    ThirtyThree(valueOf);
  }
}
