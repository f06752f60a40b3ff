/** What the parser makes of well-formed input: a printed tree is read back
    as that tree, sums of products group the products first and fold from
    the left, unary signs stack, and the parenthesis rules (a missing `)` at
    the end is tolerated, an extra one is not). */
module Shapes {
  import opened Results
  import opened Chars
  import opened Literals
  import opened Syntax
  import opened Grammar

  /** `t` occurs in `s` starting at index `i`, character by character. */
  predicate OccursAt(s: string, i: nat, t: string)
    decreases |t|
  {
    i + |t| <= |s| && (t == [] || (s[i] == t[0] && OccursAt(s, i + 1, t[1..])))
  }

  /** Every piece of `s` occurs in `s` at its own place. */
  lemma {:induction false} OccursSlice(s: string, i: nat, j: nat)
    requires i <= j <= |s|
    ensures OccursAt(s, i, s[i..j])
    decreases j - i
  {
    if i < j {
      assert s[i..j][1..] == s[i + 1..j];
      OccursSlice(s, i + 1, j);
    }
  }

  /** Position `j` ends a number run: the input ends there or the character
      there is neither a digit nor a dot. */
  predicate EndsNumber(s: string, j: nat) {
    j <= |s| && (j == |s| || !IsNumberChar(s[j]))
  }

  /** Position `j` ends a term: the input ends or an additive operator or `)` follows. */
  predicate EndsTerm(s: string, j: nat) {
    j <= |s| && (j == |s| || s[j] == '+' || s[j] == '-' || s[j] == ')')
  }

  /** Position `j` ends an expression: the input ends or `)` follows. */
  predicate EndsExpression(s: string, j: nat) {
    j <= |s| && (j == |s| || s[j] == ')')
  }

  /** An occurrence is the piece of `s` at that place. */
  lemma {:induction false} OccurrenceIsSlice(s: string, i: nat, t: string)
    requires OccursAt(s, i, t)
    ensures s[i..i + |t|] == t
    decreases |t|
  {
    if t != [] {
      OccurrenceIsSlice(s, i + 1, t[1..]);
      assert s[i..i + |t|] == [s[i]] + s[i + 1..i + |t|];
    }
  }

  lemma {:induction false} SplitOccurrence(s: string, i: nat, a: string, b: string)
    requires OccursAt(s, i, a + b)
    ensures OccursAt(s, i, a) && OccursAt(s, i + |a|, b)
    decreases |a|
  {
    if a == [] {
      assert a + b == b;
    } else {
      assert (a + b)[0] == a[0] && (a + b)[1..] == a[1..] + b;
      SplitOccurrence(s, i + 1, a[1..], b);
    }
  }

  lemma CharAt(s: string, i: nat, c: char)
    requires OccursAt(s, i, [c])
    ensures i < |s| && s[i] == c
  {
  }

  lemma {:induction false} CharOf(s: string, i: nat, t: string, k: nat)
    requires OccursAt(s, i, t) && k < |t|
    ensures s[i + k] == t[k]
    decreases k
  {
    if k > 0 {
      CharOf(s, i + 1, t[1..], k - 1);
    }
  }

  lemma TermRestStops(s: string, j: nat, acc: Expr)
    requires EndsTerm(s, j)
    ensures TermRest(s, j, acc) == Ok(Parsed(acc, j))
  {
    assert SkipSpaces(s, j) == j;
  }

  lemma ExpressionRestStops(s: string, j: nat, acc: Expr)
    requires EndsExpression(s, j)
    ensures ExpressionRest(s, j, acc) == Ok(Parsed(acc, j))
  {
    assert SkipSpaces(s, j) == j;
  }

  /** A valid literal that occurs at `i` and is not followed by a digit or a
      dot is exactly the run the number scanner takes. */
  lemma LiteralAt(s: string, i: nat, lit: string)
    requires ValidLiteral(lit) && OccursAt(s, i, lit) && EndsNumber(s, i + |lit|)
    ensures NumberEnd(s, i) == i + |lit|
  {
    forall m | i <= m < i + |lit|
      ensures IsNumberChar(s[m])
    {
      CharOf(s, i, lit, m - i);
    }
  }

  /** The tree a binary operator character builds. */
  function Combine(op: char, l: Expr, r: Expr): Expr {
    match op
    case '+' => Add(l, r)
    case '-' => Sub(l, r)
    case '*' => Mul(l, r)
    case _ => Div(l, r)
  }

  predicate IsBinaryOp(op: char) {
    op == '+' || op == '-' || op == '*' || op == '/'
  }

  /** A printed tree read as a factor: where `Print(e)` occurs and no digit
      or dot follows it, `parseFactor` returns `e` and stops right after it. */
  lemma {:induction false} PrintedFactor(s: string, i: nat, e: Expr)
    requires WellFormed(e) && OccursAt(s, i, Print(e)) && EndsNumber(s, i + |Print(e)|)
    ensures Factor(s, i) == Ok(Parsed(e, i + |Print(e)|))
    decreases e, 3
  {
    match e
    case Num(lit) => PrintedNumber(s, i, lit);
    case Neg(x) => PrintedNegation(s, i, x);
    case Add(l, r) => Bracketed(s, i, l, '+', r);
    case Sub(l, r) => Bracketed(s, i, l, '-', r);
    case Mul(l, r) => Bracketed(s, i, l, '*', r);
    case Div(l, r) => Bracketed(s, i, l, '/', r);
  }

  lemma PrintedNumber(s: string, i: nat, lit: string)
    requires ValidLiteral(lit) && OccursAt(s, i, lit) && EndsNumber(s, i + |lit|)
    ensures Factor(s, i) == Ok(Parsed(Num(lit), i + |lit|))
  {
    LiteralAt(s, i, lit);
    OccurrenceIsSlice(s, i, lit);
    assert SkipSpaces(s, i) == i;
    assert Primary(s, i) == Number(s, i);
  }

  lemma {:induction false} PrintedNegation(s: string, i: nat, x: Expr)
    requires WellFormed(x) && OccursAt(s, i, "-" + Print(x)) && EndsNumber(s, i + 1 + |Print(x)|)
    ensures Factor(s, i) == Ok(Parsed(Neg(x), i + 1 + |Print(x)|))
    decreases Neg(x), 2
  {
    SplitOccurrence(s, i, "-", Print(x));
    CharAt(s, i, '-');
    PrintedFactor(s, i + 1, x);
    assert SkipSpaces(s, i) == i;
  }

  /** The binary case of `PrintedFactor`: "(" left op right ")". */
  lemma {:induction false} Bracketed(s: string, i: nat, l: Expr, op: char, r: Expr)
    requires IsBinaryOp(op) && WellFormed(l) && WellFormed(r)
    requires OccursAt(s, i, "(" + Print(l) + [op] + Print(r) + ")")
    ensures Factor(s, i) == Ok(Parsed(Combine(op, l, r), i + 1 + |Print(l)| + 1 + |Print(r)| + 1))
    decreases Combine(op, l, r), 2
  {
    BracketLayout(s, i, Print(l), op, Print(r));
    InsideBrackets(s, i + 1, l, op, r);
    OpenedFactor(s, i, Combine(op, l, r), i + 1 + |Print(l)| + 1 + |Print(r)|);
  }

  /** Where "(" left op right ")" occurs, each part stands at its place. */
  lemma BracketLayout(s: string, i: nat, pl: string, op: char, pr: string)
    requires OccursAt(s, i, "(" + pl + [op] + pr + ")")
    ensures i < |s| && s[i] == '('
    ensures OccursAt(s, i + 1, pl) && i + 1 + |pl| < |s| && s[i + 1 + |pl|] == op
    ensures OccursAt(s, i + 1 + |pl| + 1, pr)
    ensures i + 1 + |pl| + 1 + |pr| < |s| && s[i + 1 + |pl| + 1 + |pr|] == ')'
  {
    SplitOccurrence(s, i, "(" + pl + [op] + pr, ")");
    SplitOccurrence(s, i, "(" + pl + [op], pr);
    SplitOccurrence(s, i, "(" + pl, [op]);
    SplitOccurrence(s, i, "(", pl);
    CharAt(s, i, '(');
    CharAt(s, i + 1 + |pl|, op);
    CharAt(s, i + 1 + |pl| + 1 + |pr|, ')');
  }

  /** `(`, an expression, and `)` right after it make one factor. */
  lemma OpenedFactor(s: string, i: nat, t: Expr, close: nat)
    requires i < close < |s| && s[i] == '(' && s[close] == ')'
    requires Expression(s, i + 1) == Ok(Parsed(t, close))
    ensures Factor(s, i) == Ok(Parsed(t, close + 1))
  {
    assert SkipSpaces(s, i) == i;
    assert SkipSpaces(s, close) == close;
    assert Primary(s, i) == Closed(s, Expression(s, i + 1));
  }

  /** Inside the brackets: left op right, followed by `)`, is one expression. */
  lemma {:induction false} InsideBrackets(s: string, a: nat, l: Expr, op: char, r: Expr)
    requires IsBinaryOp(op) && WellFormed(l) && WellFormed(r)
    requires OccursAt(s, a, Print(l)) && a + |Print(l)| < |s| && s[a + |Print(l)|] == op
    requires OccursAt(s, a + |Print(l)| + 1, Print(r))
    requires a + |Print(l)| + 1 + |Print(r)| < |s| && s[a + |Print(l)| + 1 + |Print(r)|] == ')'
    ensures Expression(s, a) == Ok(Parsed(Combine(op, l, r), a + |Print(l)| + 1 + |Print(r)|))
    decreases Combine(op, l, r), 1
  {
    PrintedFactor(s, a, l);
    RightOperand(s, a, l, op, r);
  }

  /** The right operand of a bracketed operation, once the left one is parsed. */
  lemma {:induction false} RightOperand(s: string, a: nat, l: Expr, op: char, r: Expr)
    requires IsBinaryOp(op) && WellFormed(l) && WellFormed(r)
    requires a + |Print(l)| < |s| && s[a + |Print(l)|] == op
    requires Factor(s, a) == Ok(Parsed(l, a + |Print(l)|))
    requires OccursAt(s, a + |Print(l)| + 1, Print(r))
    requires a + |Print(l)| + 1 + |Print(r)| < |s| && s[a + |Print(l)| + 1 + |Print(r)|] == ')'
    ensures Expression(s, a) == Ok(Parsed(Combine(op, l, r), a + |Print(l)| + 1 + |Print(r)|))
    decreases Combine(op, l, r), 0
  {
    PrintedFactor(s, a + |Print(l)| + 1, r);
    BinaryExpression(s, a, l, op, r, a + |Print(l)|, a + |Print(l)| + 1 + |Print(r)|);
  }

  /** A factor, a binary operator, a factor and `)` make one expression. */
  lemma BinaryExpression(s: string, a: nat, l: Expr, op: char, r: Expr, endL: nat, endR: nat)
    requires IsBinaryOp(op) && a <= endL < endR < |s| && s[endL] == op && s[endR] == ')'
    requires Factor(s, a) == Ok(Parsed(l, endL))
    requires Factor(s, endL + 1) == Ok(Parsed(r, endR))
    ensures Expression(s, a) == Ok(Parsed(Combine(op, l, r), endR))
  {
    if op == '+' || op == '-' {
      AdditiveStep(s, endL, l, op, r, endR);
      assert Term(s, a) == Ok(Parsed(l, endL));
    } else {
      MultiplicativeStep(s, endL, l, op, r, endR);
      assert Term(s, a) == Ok(Parsed(Combine(op, l, r), endR));
    }
  }

  lemma AdditiveStep(s: string, endL: nat, l: Expr, op: char, r: Expr, endR: nat)
    requires op == '+' || op == '-'
    requires endL < endR < |s| && s[endL] == op && s[endR] == ')'
    requires Factor(s, endL + 1) == Ok(Parsed(r, endR))
    ensures TermRest(s, endL, l) == Ok(Parsed(l, endL))
    ensures ExpressionRest(s, endL, l) == Ok(Parsed(Combine(op, l, r), endR))
  {
    TermRestStops(s, endL, l);
    TermRestStops(s, endR, r);
    assert Term(s, endL + 1) == Ok(Parsed(r, endR));
    ExpressionRestStops(s, endR, Combine(op, l, r));
    assert SkipSpaces(s, endL) == endL;
  }

  lemma MultiplicativeStep(s: string, endL: nat, l: Expr, op: char, r: Expr, endR: nat)
    requires op == '*' || op == '/'
    requires endL < endR < |s| && s[endL] == op && s[endR] == ')'
    requires Factor(s, endL + 1) == Ok(Parsed(r, endR))
    ensures TermRest(s, endL, l) == Ok(Parsed(Combine(op, l, r), endR))
    ensures ExpressionRest(s, endR, Combine(op, l, r)) == Ok(Parsed(Combine(op, l, r), endR))
  {
    TermRestStops(s, endR, Combine(op, l, r));
    ExpressionRestStops(s, endR, Combine(op, l, r));
    assert SkipSpaces(s, endL) == endL;
  }

  /** A printed tree followed by the end of the input or `)` is a whole expression. */
  lemma PrintedExpression(s: string, i: nat, e: Expr)
    requires WellFormed(e) && OccursAt(s, i, Print(e)) && EndsExpression(s, i + |Print(e)|)
    ensures Expression(s, i) == Ok(Parsed(e, i + |Print(e)|))
  {
    var j := i + |Print(e)|;
    PrintedFactor(s, i, e);
    TermRestStops(s, j, e);
    ExpressionRestStops(s, j, e);
  }

  /** Reading back a printed tree gives the same tree: the parser groups and
      orders operands exactly as the parentheses and operators say. */
  lemma PrintRoundTrip(e: Expr)
    requires WellFormed(e)
    ensures ParseAll(Print(e)) == Ok(e)
  {
    var s := Print(e);
    OccursSlice(s, 0, |s|);
    assert s[0..|s|] == s;
    PrintedExpression(s, 0, e);
  }

  /** An operator and the operand typed after it. */
  datatype Step = Step(op: char, operand: Expr)

  /** A product as typed: a first factor, then factors after `*` or `/`. */
  datatype Product = Product(first: Expr, steps: seq<Step>)

  /** An additive operator and the product typed after it. */
  datatype Addend = Addend(op: char, product: Product)

  /** A sum of products as typed, with no parentheses around the products. */
  datatype Sum = Sum(first: Product, addends: seq<Addend>)

  predicate ProductSteps(steps: seq<Step>) {
    forall k :: 0 <= k < |steps| ==>
      (steps[k].op == '*' || steps[k].op == '/') && WellFormed(steps[k].operand)
  }

  predicate ProductOk(p: Product) {
    WellFormed(p.first) && ProductSteps(p.steps)
  }

  predicate SumAddends(addends: seq<Addend>) {
    forall k :: 0 <= k < |addends| ==>
      (addends[k].op == '+' || addends[k].op == '-') && ProductOk(addends[k].product)
  }

  predicate SumOk(sm: Sum) {
    ProductOk(sm.first) && SumAddends(sm.addends)
  }

  function StepsText(steps: seq<Step>): string
    requires ProductSteps(steps)
  {
    if steps == [] then []
    else [steps[0].op] + Print(steps[0].operand) + StepsText(steps[1..])
  }

  /** Folding operands into the tree from the left: the leftmost operator
      ends up deepest. */
  function FoldSteps(acc: Expr, steps: seq<Step>): Expr
    decreases |steps|
  {
    if steps == [] then acc
    else FoldSteps(Combine(steps[0].op, acc, steps[0].operand), steps[1..])
  }

  function ProductText(p: Product): string
    requires ProductOk(p)
  {
    Print(p.first) + StepsText(p.steps)
  }

  function ProductTree(p: Product): Expr {
    FoldSteps(p.first, p.steps)
  }

  function AddendsText(addends: seq<Addend>): string
    requires SumAddends(addends)
  {
    if addends == [] then []
    else [addends[0].op] + ProductText(addends[0].product) + AddendsText(addends[1..])
  }

  function FoldAddends(acc: Expr, addends: seq<Addend>): Expr
    decreases |addends|
  {
    if addends == [] then acc
    else FoldAddends(Combine(addends[0].op, acc, ProductTree(addends[0].product)), addends[1..])
  }

  function SumText(sm: Sum): string
    requires SumOk(sm)
  {
    ProductText(sm.first) + AddendsText(sm.addends)
  }

  function SumTree(sm: Sum): Expr {
    FoldAddends(ProductTree(sm.first), sm.addends)
  }

  /** Where an operator character, a middle part and a tail occur one
      after the other, each part occurs at its place. */
  lemma OperatorSplit(s: string, j: nat, op: char, mid: string, tail: string)
    requires OccursAt(s, j, [op] + mid + tail)
    ensures j < |s| && s[j] == op
    ensures OccursAt(s, j + 1, mid) && OccursAt(s, j + 1 + |mid|, tail)
    ensures tail != [] ==> s[j + 1 + |mid|] == tail[0]
  {
    SplitOccurrence(s, j, [op] + mid, tail);
    SplitOccurrence(s, j, [op], mid);
    CharAt(s, j, op);
    if tail != [] {
      CharOf(s, j + 1 + |mid|, tail, 0);
    }
  }

  /** One turn of the `parseTerm` loop over a typed operator and printed factor. */
  lemma ProductStep(s: string, j: nat, acc: Expr, op: char, f: Expr, tail: string)
    requires (op == '*' || op == '/') && WellFormed(f)
    requires OccursAt(s, j, [op] + Print(f) + tail)
    requires tail == [] ==> EndsTerm(s, j + 1 + |Print(f)| + |tail|)
    requires tail != [] ==> tail[0] == '*' || tail[0] == '/'
    ensures OccursAt(s, j + 1 + |Print(f)|, tail)
    ensures TermRest(s, j, acc) == TermRest(s, j + 1 + |Print(f)|, Combine(op, acc, f))
  {
    OperatorSplit(s, j, op, Print(f), tail);
    PrintedFactor(s, j + 1, f);
    TermLoopTurn(s, j, acc, op, f, j + 1 + |Print(f)|);
  }

  /** A turn of the `parseTerm` loop with no spaces before the operator. */
  lemma TermLoopTurn(s: string, j: nat, acc: Expr, op: char, f: Expr, next: nat)
    requires (op == '*' || op == '/') && j < |s| && s[j] == op
    requires Factor(s, j + 1) == Ok(Parsed(f, next))
    ensures TermRest(s, j, acc) == TermRest(s, next, Combine(op, acc, f))
  {
    assert SkipSpaces(s, j) == j;
    TermRestStep(s, j, acc, op, Parsed(f, next));
    assert Combine(op, acc, f) == if op == '*' then Mul(acc, f) else Div(acc, f);
  }

  /** A turn of the `parseExpression` loop with no spaces before the operator. */
  lemma ExpressionLoopTurn(s: string, j: nat, acc: Expr, op: char, t: Expr, next: nat)
    requires (op == '+' || op == '-') && j < |s| && s[j] == op
    requires Term(s, j + 1) == Ok(Parsed(t, next))
    ensures ExpressionRest(s, j, acc) == ExpressionRest(s, next, Combine(op, acc, t))
  {
    assert SkipSpaces(s, j) == j;
    ExpressionRestStep(s, j, acc, op, Parsed(t, next));
    assert Combine(op, acc, t) == if op == '+' then Add(acc, t) else Sub(acc, t);
  }

  lemma StepsTextStart(steps: seq<Step>)
    requires ProductSteps(steps) && steps != []
    ensures StepsText(steps)[0] == '*' || StepsText(steps)[0] == '/'
  {
  }

  /** The loop of `parseTerm` over typed `* factor` and `/ factor` steps
      folds them into the tree from the left. */
  lemma {:induction false} StepsParsed(s: string, j: nat, acc: Expr, steps: seq<Step>, end: nat)
    requires ProductSteps(steps) && OccursAt(s, j, StepsText(steps))
    requires end == j + |StepsText(steps)| && EndsTerm(s, end)
    ensures TermRest(s, j, acc) == Ok(Parsed(FoldSteps(acc, steps), end))
    decreases |steps|
  {
    if steps == [] {
      TermRestStops(s, j, acc);
    } else {
      var mid, next := StepsTurn(s, j, acc, steps, end);
      StepsParsed(s, mid, next, steps[1..], end);
    }
  }

  /** One turn of `StepsParsed`: the first step consumed, and where the
      loop goes on. */
  lemma StepsTurn(s: string, j: nat, acc: Expr, steps: seq<Step>, end: nat)
      returns (mid: nat, next: Expr)
    requires ProductSteps(steps) && steps != [] && OccursAt(s, j, StepsText(steps))
    requires end == j + |StepsText(steps)| && EndsTerm(s, end)
    ensures ProductSteps(steps[1..]) && OccursAt(s, mid, StepsText(steps[1..]))
    ensures end == mid + |StepsText(steps[1..])| && j < mid
    ensures TermRest(s, j, acc) == TermRest(s, mid, next)
    ensures FoldSteps(acc, steps) == FoldSteps(next, steps[1..])
  {
    var st, rest := steps[0], steps[1..];
    StepsCons(acc, steps);
    mid := j + 1 + |Print(st.operand)|;
    next := Combine(st.op, acc, st.operand);
    ProductStep(s, j, acc, st.op, st.operand, StepsText(rest));
  }

  /** The first step split off: its text, the rest's well-formedness and
      first character, and one step of the fold. */
  lemma StepsCons(acc: Expr, steps: seq<Step>)
    requires ProductSteps(steps) && steps != []
    ensures (steps[0].op == '*' || steps[0].op == '/') && WellFormed(steps[0].operand)
    ensures ProductSteps(steps[1..])
    ensures StepsText(steps) == [steps[0].op] + Print(steps[0].operand) + StepsText(steps[1..])
    ensures steps[1..] != [] ==> StepsText(steps[1..])[0] == '*' || StepsText(steps[1..])[0] == '/'
    ensures FoldSteps(acc, steps) == FoldSteps(Combine(steps[0].op, acc, steps[0].operand), steps[1..])
  {
    var rest := steps[1..];
    forall k | 0 <= k < |rest| ensures rest[k] == steps[k + 1] { }
    if rest != [] {
      StepsTextStart(rest);
    }
  }

  /** A typed product is one term, its tree folded from the left. */
  lemma ProductParsed(s: string, i: nat, p: Product)
    requires ProductOk(p) && OccursAt(s, i, ProductText(p)) && EndsTerm(s, i + |ProductText(p)|)
    ensures Term(s, i) == Ok(Parsed(ProductTree(p), i + |ProductText(p)|))
  {
    var pf, st := Print(p.first), StepsText(p.steps);
    FirstThenSteps(s, i, pf, st);
    if p.steps != [] {
      StepsTextStart(p.steps);
    }
    PrintedFactor(s, i, p.first);
    StepsParsed(s, i + |pf|, p.first, p.steps, i + |ProductText(p)|);
  }

  lemma FirstThenSteps(s: string, i: nat, first: string, rest: string)
    requires OccursAt(s, i, first + rest)
    ensures OccursAt(s, i, first) && OccursAt(s, i + |first|, rest)
    ensures rest != [] ==> s[i + |first|] == rest[0]
  {
    SplitOccurrence(s, i, first, rest);
    if rest != [] {
      CharOf(s, i + |first|, rest, 0);
    }
  }

  /** One turn of the `parseExpression` loop over a typed operator and product. */
  lemma SumStep(s: string, j: nat, acc: Expr, op: char, p: Product, tail: string)
    requires (op == '+' || op == '-') && ProductOk(p)
    requires OccursAt(s, j, [op] + ProductText(p) + tail)
    requires tail == [] ==> EndsExpression(s, j + 1 + |ProductText(p)|)
    requires tail != [] ==> tail[0] == '+' || tail[0] == '-'
    ensures OccursAt(s, j + 1 + |ProductText(p)|, tail)
    ensures ExpressionRest(s, j, acc)
         == ExpressionRest(s, j + 1 + |ProductText(p)|, Combine(op, acc, ProductTree(p)))
  {
    OperatorSplit(s, j, op, ProductText(p), tail);
    ProductParsed(s, j + 1, p);
    ExpressionLoopTurn(s, j, acc, op, ProductTree(p), j + 1 + |ProductText(p)|);
  }

  lemma AddendsTextStart(addends: seq<Addend>)
    requires SumAddends(addends) && addends != []
    ensures AddendsText(addends)[0] == '+' || AddendsText(addends)[0] == '-'
  {
  }

  /** The loop of `parseExpression` over typed `+ product` and `- product`
      addends folds them into the tree from the left. */
  lemma {:induction false} AddendsParsed(s: string, j: nat, acc: Expr, addends: seq<Addend>, end: nat)
    requires SumAddends(addends) && OccursAt(s, j, AddendsText(addends))
    requires end == j + |AddendsText(addends)| && EndsExpression(s, end)
    ensures ExpressionRest(s, j, acc) == Ok(Parsed(FoldAddends(acc, addends), end))
    decreases |addends|
  {
    if addends == [] {
      ExpressionRestStops(s, j, acc);
    } else {
      var mid, next := AddendsTurn(s, j, acc, addends, end);
      AddendsParsed(s, mid, next, addends[1..], end);
    }
  }

  /** One turn of `AddendsParsed`: the first addend consumed, and where
      the loop goes on. */
  lemma AddendsTurn(s: string, j: nat, acc: Expr, addends: seq<Addend>, end: nat)
      returns (mid: nat, next: Expr)
    requires SumAddends(addends) && addends != [] && OccursAt(s, j, AddendsText(addends))
    requires end == j + |AddendsText(addends)| && EndsExpression(s, end)
    ensures SumAddends(addends[1..]) && OccursAt(s, mid, AddendsText(addends[1..]))
    ensures end == mid + |AddendsText(addends[1..])| && j < mid
    ensures ExpressionRest(s, j, acc) == ExpressionRest(s, mid, next)
    ensures FoldAddends(acc, addends) == FoldAddends(next, addends[1..])
  {
    var ad, rest := addends[0], addends[1..];
    AddendsCons(acc, addends);
    mid := j + 1 + |ProductText(ad.product)|;
    next := Combine(ad.op, acc, ProductTree(ad.product));
    SumStep(s, j, acc, ad.op, ad.product, AddendsText(rest));
  }

  /** The first addend split off: its text, the rest's well-formedness and
      first character, and one step of the fold. */
  lemma AddendsCons(acc: Expr, addends: seq<Addend>)
    requires SumAddends(addends) && addends != []
    ensures (addends[0].op == '+' || addends[0].op == '-') && ProductOk(addends[0].product)
    ensures SumAddends(addends[1..])
    ensures AddendsText(addends)
         == [addends[0].op] + ProductText(addends[0].product) + AddendsText(addends[1..])
    ensures addends[1..] != [] ==> AddendsText(addends[1..])[0] == '+' || AddendsText(addends[1..])[0] == '-'
    ensures FoldAddends(acc, addends)
         == FoldAddends(Combine(addends[0].op, acc, ProductTree(addends[0].product)), addends[1..])
  {
    var rest := addends[1..];
    forall k | 0 <= k < |rest| ensures rest[k] == addends[k + 1] { }
    if rest != [] {
      AddendsTextStart(rest);
    }
  }

  /** Precedence and associativity: a sum of products typed without
      parentheses parses as the products first, each folded from the left,
      and then the sum folded from the left. */
  lemma SumOfProducts(sm: Sum)
    requires SumOk(sm)
    ensures ParseAll(SumText(sm)) == Ok(SumTree(sm))
  {
    var s := SumText(sm);
    OccursSlice(s, 0, |s|);
    assert s[0..|s|] == s;
    SumParsed(s, 0, sm);
  }

  /** A typed sum of products followed by the end or `)` is one expression. */
  lemma SumParsed(s: string, i: nat, sm: Sum)
    requires SumOk(sm) && OccursAt(s, i, SumText(sm)) && EndsExpression(s, i + |SumText(sm)|)
    ensures Expression(s, i) == Ok(Parsed(SumTree(sm), i + |SumText(sm)|))
  {
    var pt, at := ProductText(sm.first), AddendsText(sm.addends);
    FirstThenSteps(s, i, pt, at);
    if sm.addends != [] {
      AddendsTextStart(sm.addends);
    }
    ProductParsed(s, i, sm.first);
    AddendsParsed(s, i + |pt|, ProductTree(sm.first), sm.addends, i + |SumText(sm)|);
  }

  /** A parenthesised sum at the start of the input is one factor, whether
      or not the `)` is there: `eat(')')` at the end of the input finds
      nothing and the parser carries on. */
  lemma {:induction false} OpenedSum(s: string, sm: Sum, closed: bool)
    requires SumOk(sm)
    requires s == "(" + SumText(sm) + (if closed then ")" else "")
    ensures Factor(s, 0) == Ok(Parsed(SumTree(sm), |s|))
  {
    var n := |SumText(sm)|;
    OccursSlice(s, 1, 1 + n);
    assert s[1..1 + n] == SumText(sm);
    SumParsed(s, 1, sm);
    assert SkipSpaces(s, 0) == 0 && s[0] == '(';
    assert EatEnd(s, 1 + n, ')') == |s|;
  }

  /** Parentheses group a sum, and a `(` that is never closed is accepted:
      "(" followed by a sum reads as that sum. */
  lemma ParenthesesGroup(sm: Sum, closed: bool)
    requires SumOk(sm)
    ensures ParseAll("(" + SumText(sm) + (if closed then ")" else "")) == Ok(SumTree(sm))
  {
    var s := "(" + SumText(sm) + (if closed then ")" else "");
    OpenedSum(s, sm, closed);
    TermRestStops(s, |s|, SumTree(sm));
    assert Term(s, 0) == Ok(Parsed(SumTree(sm), |s|));
    ExpressionRestStops(s, |s|, SumTree(sm));
    assert Expression(s, 0) == Ok(Parsed(SumTree(sm), |s|));
  }

  /** A `)` that closes nothing is left over, and leftover input is an error. */
  lemma ExtraCloseFails(sm: Sum)
    requires SumOk(sm)
    ensures ParseAll(SumText(sm) + ")") == Fail
  {
    var s := SumText(sm) + ")";
    OccursSlice(s, 0, |SumText(sm)|);
    assert s[0..|SumText(sm)|] == SumText(sm);
    SumParsed(s, 0, sm);
  }

  /** A run of unary signs. */
  predicate AreSigns(signs: string) {
    forall k :: 0 <= k < |signs| ==> signs[k] == '+' || signs[k] == '-'
  }

  /** The tree unary signs build around an operand: `-` wraps it in a
      negation, `+` leaves it as it is. */
  function ApplySigns(signs: string, e: Expr): Expr
    decreases |signs|
  {
    if signs == [] then e
    else if signs[0] == '-' then Neg(ApplySigns(signs[1..], e))
    else ApplySigns(signs[1..], e)
  }

  function CountMinus(signs: string): nat
    decreases |signs|
  {
    if signs == [] then 0 else (if signs[0] == '-' then 1 else 0) + CountMinus(signs[1..])
  }

  lemma SignsCons(signs: string, t: string)
    requires AreSigns(signs) && signs != []
    ensures AreSigns(signs[1..])
    ensures signs + t == [signs[0]] + (signs[1..] + t)
  {
    var rest := signs[1..];
    forall k | 0 <= k < |rest| ensures rest[k] == signs[k + 1] { }
  }

  /** Unary signs before a printed operand: `parseFactor` recurses once per
      sign and builds the signs' tree around the operand. */
  lemma {:induction false} SignsParsed(s: string, i: nat, signs: string, e: Expr)
    requires AreSigns(signs) && WellFormed(e)
    requires OccursAt(s, i, signs + Print(e)) && EndsNumber(s, i + |signs| + |Print(e)|)
    ensures Factor(s, i) == Ok(Parsed(ApplySigns(signs, e), i + |signs| + |Print(e)|))
    decreases |signs|
  {
    if signs == [] {
      assert signs + Print(e) == Print(e);
      PrintedFactor(s, i, e);
    } else {
      SignsCons(signs, Print(e));
      SplitOccurrence(s, i, [signs[0]], signs[1..] + Print(e));
      CharAt(s, i, signs[0]);
      SignsParsed(s, i + 1, signs[1..], e);
      SignThenFactor(s, i, signs, e, i + 1 + |signs[1..]| + |Print(e)|);
    }
  }

  /** One unary sign in front of a factor that `parseFactor` reads. */
  lemma SignThenFactor(s: string, i: nat, signs: string, e: Expr, next: nat)
    requires signs != [] && (signs[0] == '+' || signs[0] == '-') && i < |s| && s[i] == signs[0]
    requires Factor(s, i + 1) == Ok(Parsed(ApplySigns(signs[1..], e), next))
    ensures Factor(s, i) == Ok(Parsed(ApplySigns(signs, e), next))
  {
    assert SkipSpaces(s, i) == i;
  }

  /** Unary signs stack: the value is the operand's, negated once for each `-`. */
  lemma SignsValue(signs: string, e: Expr)
    requires AreSigns(signs) && WellFormed(e)
    ensures WellFormed(ApplySigns(signs, e))
    ensures Eval(ApplySigns(signs, e))
         == if CountMinus(signs) % 2 == 0 then Eval(e) else Negate(Eval(e))
  {
    SignsNegate(signs, e);
    NegationParity(CountMinus(signs), Eval(e));
  }

  /** `v` negated `n` times. */
  function NegatedTimes(n: nat, v: Value): Value {
    if n == 0 then v else Negate(NegatedTimes(n - 1, v))
  }

  /** Each `-` among the signs negates the value once more, each `+` leaves it. */
  lemma {:induction false} SignsNegate(signs: string, e: Expr)
    requires WellFormed(e)
    ensures WellFormed(ApplySigns(signs, e))
    ensures Eval(ApplySigns(signs, e)) == NegatedTimes(CountMinus(signs), Eval(e))
    decreases |signs|
  {
    if signs != [] {
      SignsNegate(signs[1..], e);
      if signs[0] == '-' {
        MinusSign(signs, e);
      } else {
        PlusSign(signs, e);
      }
    }
  }

  lemma MinusSign(signs: string, e: Expr)
    requires signs != [] && signs[0] == '-' && WellFormed(ApplySigns(signs[1..], e))
    ensures WellFormed(ApplySigns(signs, e))
    ensures Eval(ApplySigns(signs, e)) == Negate(Eval(ApplySigns(signs[1..], e)))
    ensures CountMinus(signs) == CountMinus(signs[1..]) + 1
  {
  }

  lemma PlusSign(signs: string, e: Expr)
    requires signs != [] && signs[0] != '-'
    ensures ApplySigns(signs, e) == ApplySigns(signs[1..], e)
    ensures CountMinus(signs) == CountMinus(signs[1..])
  {
  }

  /** Negating twice is the identity, so only the parity of `n` matters. */
  lemma {:induction false} NegationParity(n: nat, v: Value)
    ensures NegatedTimes(n, v) == if n % 2 == 0 then v else Negate(v)
  {
    if n > 0 {
      NegationParity(n - 1, v);
      if (n - 1) % 2 != 0 {
        assert n % 2 == 0;
      }
    }
  }

  /** Signs typed before a printed operand read as the signs' tree around it. */
  lemma SignedOperand(signs: string, e: Expr)
    requires AreSigns(signs) && WellFormed(e)
    ensures ParseAll(signs + Print(e)) == Ok(ApplySigns(signs, e))
  {
    var s := signs + Print(e);
    OccursSlice(s, 0, |s|);
    assert s[0..|s|] == s;
    SignsParsed(s, 0, signs, e);
    TermRestStops(s, |s|, ApplySigns(signs, e));
    ExpressionRestStops(s, |s|, ApplySigns(signs, e));
    assert Term(s, 0) == Ok(Parsed(ApplySigns(signs, e), |s|));
  }

  /** A lone run of digits and dots is accepted exactly when it is a valid
      literal (at most one dot, at least one digit), and then it is that
      literal. */
  lemma NumberRun(t: string)
    requires |t| > 0 && IsNumberRun(t)
    ensures ParseAll(t) == if ValidLiteral(t) then Ok(Num(t)) else Fail
  {
    assert NumberEnd(t, 0) == |t|;
    assert t[0..|t|] == t;
    assert SkipSpaces(t, 0) == 0;
    if ValidLiteral(t) {
      assert Factor(t, 0) == Ok(Parsed(Num(t), |t|));
      TermRestStops(t, |t|, Num(t));
      ExpressionRestStops(t, |t|, Num(t));
      assert Term(t, 0) == Ok(Parsed(Num(t), |t|));
    } else {
      assert Factor(t, 0) == Fail;
      assert Term(t, 0) == Fail;
      assert Expression(t, 0) == Fail;
    }
  }
}
