/** The recursive-descent parser of the calculator, as functions that thread
    the cursor position explicitly. Each function does what the method of
    the same role in the parser object does, position for position:
    `Expression` and `ExpressionRest` are `parseExpression` and its loop,
    `Term` and `TermRest` are `parseTerm` and its loop, `Factor` is
    `parseFactor`, `SkipSpaces` and `EatEnd` are `eat`, `ParseAll` is
    `parse`. A parse that throws is `Fail`. */
module Grammar {
  import opened Results
  import opened Chars
  import opened Literals
  import opened Syntax

  /** A successful parse: the tree and the cursor position after it. */
  datatype Parsed = Parsed(tree: Expr, next: nat)

  /** The characters the parser can ever consume. */
  predicate IsParserChar(c: char) {
    IsNumberChar(c) || c == '+' || c == '-' || c == '*' || c == '/' || c == '(' || c == ')' || c == ' '
  }

  /** The characters that can be the last one consumed for an operand. */
  predicate ClosesOperand(c: char) {
    IsNumberChar(c) || c == ')' || c == ' '
  }

  /** The characters that can only stand right after an operand: `*` and
      `/` need a left operand, `)` closes a parenthesised one. */
  predicate FollowsOperand(c: char) {
    c == '*' || c == '/' || c == ')'
  }

  /** Between `i` and `j`, every character that can only follow an operand
      comes right after a character that closes one. */
  predicate AfterOperands(s: string, i: nat, j: nat)
    requires i <= j <= |s|
  {
    forall m :: i < m < j && FollowsOperand(s[m]) ==> ClosesOperand(s[m - 1])
  }

  predicate At(s: string, k: nat, c: char) {
    k < |s| && s[k] == c
  }

  /** A successful parse of an operand starting at `i`: it consumed at least
      one character, ends on a character that closes an operand, consumed
      only parser characters, did not start on (and put every `*`, `/` and
      `)` after) something that needs an operand before it, and built a
      tree of valid literals. */
  predicate ConsumesOperand(s: string, i: nat, r: Result<Parsed>) {
    r.Ok? ==>
      && i < r.value.next <= |s|
      && ClosesOperand(s[r.value.next - 1])
      && (forall m :: i <= m < r.value.next ==> IsParserChar(s[m]))
      && !FollowsOperand(s[i])
      && AfterOperands(s, i, r.value.next)
      && WellFormed(r.value.tree)
  }

  /** A successful parse of the operator loop starting at `j` with the
      tree `acc` so far: the cursor did not move back, consumed only
      parser characters, and if it moved it ends on a character that
      closes an operand. */
  predicate ContinuesOperand(s: string, j: nat, acc: Expr, r: Result<Parsed>) {
    r.Ok? ==>
      && j <= r.value.next <= |s|
      && (j < r.value.next ==> ClosesOperand(s[r.value.next - 1]))
      && (forall m :: j <= m < r.value.next ==> IsParserChar(s[m]))
      && AfterOperands(s, j, r.value.next)
      && (WellFormed(acc) ==> WellFormed(r.value.tree))
  }

  /** The loop in `eat`: the first position at or after `i` that is not a space. */
  function SkipSpaces(s: string, i: nat): (k: nat)
    requires i <= |s|
    ensures i <= k <= |s|
    decreases |s| - i
  {
    if At(s, i, ' ') then SkipSpaces(s, i + 1) else i
  }

  /** The cursor after `eat(c)`: spaces skipped, then `c` consumed if it is there. */
  function EatEnd(s: string, i: nat, c: char): (k: nat)
    requires i <= |s|
    ensures i <= k <= |s|
    ensures k == SkipSpaces(s, i) || (k == SkipSpaces(s, i) + 1 && s[k - 1] == c)
    ensures k == SkipSpaces(s, i) + 1 <==> At(s, SkipSpaces(s, i), c)
  {
    var k := SkipSpaces(s, i);
    if At(s, k, c) then k + 1 else k
  }

  /** The end of the maximal run of digits and dots that starts at `i`. */
  function NumberEnd(s: string, i: nat): (j: nat)
    requires i <= |s|
    ensures i <= j <= |s|
    ensures forall m :: i <= m < j ==> IsNumberChar(s[m])
    ensures j < |s| ==> !IsNumberChar(s[j])
    decreases |s| - i
  {
    if i < |s| && IsNumberChar(s[i]) then NumberEnd(s, i + 1) else i
  }

  /** expression := term (('+' | '-') term)* */
  function Expression(s: string, i: nat): (r: Result<Parsed>)
    requires i <= |s|
    ensures r.Ok? ==> i < r.value.next <= |s|
    decreases |s| - i, 4
  {
    match Term(s, i)
    case Fail => Fail
    case Ok(p) => ExpressionRest(s, p.next, p.tree)
  }

  /** The loop of `parseExpression`, with the left operand `acc` folded so far. */
  function ExpressionRest(s: string, j: nat, acc: Expr): (r: Result<Parsed>)
    requires j <= |s|
    ensures r.Ok? ==> j <= r.value.next <= |s|
    decreases |s| - j, 0
  {
    var k := SkipSpaces(s, j);
    if At(s, k, '+') then
      match Term(s, k + 1)
      case Fail => Fail
      case Ok(p) => ExpressionRest(s, p.next, Add(acc, p.tree))
    else if At(s, k, '-') then
      match Term(s, k + 1)
      case Fail => Fail
      case Ok(p) => ExpressionRest(s, p.next, Sub(acc, p.tree))
    else
      Ok(Parsed(acc, k))
  }

  /** term := factor (('*' | '/') factor)* */
  function Term(s: string, i: nat): (r: Result<Parsed>)
    requires i <= |s|
    ensures r.Ok? ==> i < r.value.next <= |s|
    decreases |s| - i, 3
  {
    match Factor(s, i)
    case Fail => Fail
    case Ok(p) => TermRest(s, p.next, p.tree)
  }

  /** The loop of `parseTerm`, with the left operand `acc` folded so far. */
  function TermRest(s: string, j: nat, acc: Expr): (r: Result<Parsed>)
    requires j <= |s|
    ensures r.Ok? ==> j <= r.value.next <= |s|
    decreases |s| - j, 0
  {
    var k := SkipSpaces(s, j);
    if At(s, k, '*') then
      match Factor(s, k + 1)
      case Fail => Fail
      case Ok(p) => TermRest(s, p.next, Mul(acc, p.tree))
    else if At(s, k, '/') then
      match Factor(s, k + 1)
      case Fail => Fail
      case Ok(p) => TermRest(s, p.next, Div(acc, p.tree))
    else
      Ok(Parsed(acc, k))
  }

  /** factor := ('+' | '-') factor | primary. Unary plus leaves the operand as it is. */
  function Factor(s: string, i: nat): (r: Result<Parsed>)
    requires i <= |s|
    ensures r.Ok? ==> i < r.value.next <= |s|
    decreases |s| - i, 1
  {
    var k := SkipSpaces(s, i);
    if At(s, k, '+') then Factor(s, k + 1)
    else if At(s, k, '-') then Negated(Factor(s, k + 1))
    else Primary(s, k)
  }

  /** The rest of `parseFactor`, once no sign follows: '(' expression [')'] | number.
      The closing parenthesis is optional: the result of `eat(')')` is ignored. */
  function Primary(s: string, k: nat): (r: Result<Parsed>)
    requires k <= |s|
    ensures r.Ok? ==> k < r.value.next <= |s|
    decreases |s| - k, 0
  {
    if At(s, k, '(') then Closed(s, Expression(s, k + 1))
    else if k < |s| && IsNumberChar(s[k]) then Number(s, k)
    else Fail
  }

  function Negated(r: Result<Parsed>): Result<Parsed> {
    match r
    case Fail => Fail
    case Ok(p) => Ok(Parsed(Neg(p.tree), p.next))
  }

  /** After the parenthesised expression `r`: `eat(')')`. */
  function Closed(s: string, r: Result<Parsed>): Result<Parsed>
    requires r.Ok? ==> r.value.next <= |s|
  {
    match r
    case Fail => Fail
    case Ok(p) => Ok(Parsed(p.tree, EatEnd(s, p.next, ')')))
  }

  /** The maximal run of digits and dots at `k`, converted by `Double.parseDouble`. */
  function Number(s: string, k: nat): Result<Parsed>
    requires k < |s|
  {
    var j := NumberEnd(s, k);
    if ValidLiteral(s[k..j]) then Ok(Parsed(Num(s[k..j]), j)) else Fail
  }

  /** One turn of the `parseExpression` loop: after the operator `op` and the term `p`. */
  lemma ExpressionRestStep(s: string, j: nat, acc: Expr, op: char, p: Parsed)
    requires j <= |s| && (op == '+' || op == '-')
    requires At(s, SkipSpaces(s, j), op) && Term(s, SkipSpaces(s, j) + 1) == Ok(p)
    ensures ExpressionRest(s, j, acc)
            == ExpressionRest(s, p.next, if op == '+' then Add(acc, p.tree) else Sub(acc, p.tree))
  {
  }

  /** One turn of the `parseTerm` loop: after the operator `op` and the factor `p`. */
  lemma TermRestStep(s: string, j: nat, acc: Expr, op: char, p: Parsed)
    requires j <= |s| && (op == '*' || op == '/')
    requires At(s, SkipSpaces(s, j), op) && Factor(s, SkipSpaces(s, j) + 1) == Ok(p)
    ensures TermRest(s, j, acc)
            == TermRest(s, p.next, if op == '*' then Mul(acc, p.tree) else Div(acc, p.tree))
  {
  }

  /** `parse`: an expression from the start that leaves nothing unconsumed.
      A success consumed the whole, non-empty input, which holds only
      parser characters, ends on a character that closes an operand, and
      has every `*`, `/` and `)` right after one that closes an operand. */
  function ParseAll(s: string): (r: Result<Expr>)
    ensures r.Ok? ==> WellFormed(r.value)
    ensures r.Ok? ==> |s| > 0 && ClosesOperand(s[|s| - 1])
    ensures r.Ok? ==> forall m :: 0 <= m < |s| ==> IsParserChar(s[m])
    ensures r.Ok? ==> forall m :: 0 <= m < |s| && FollowsOperand(s[m]) ==> 0 < m && ClosesOperand(s[m - 1])
  {
    ExpressionConsumes(s, 0);
    match Expression(s, 0)
    case Fail => Fail
    case Ok(p) => if p.next < |s| then Fail else Ok(p.tree)
  }

  /** The characters `eat` skips are spaces, and it stops on a non-space. */
  lemma {:induction false} SkippedSpaces(s: string, i: nat)
    requires i <= |s|
    ensures forall m :: i <= m < SkipSpaces(s, i) ==> s[m] == ' '
    ensures SkipSpaces(s, i) < |s| ==> s[SkipSpaces(s, i)] != ' '
    decreases |s| - i
  {
    if At(s, i, ' ') {
      SkippedSpaces(s, i + 1);
    }
  }

  lemma {:induction false} ExpressionConsumes(s: string, i: nat)
    requires i <= |s|
    ensures ConsumesOperand(s, i, Expression(s, i))
    decreases |s| - i, 4
  {
    TermConsumes(s, i);
    match Term(s, i)
    case Fail =>
    case Ok(p) => ExpressionRestContinues(s, p.next, p.tree);
  }

  lemma {:induction false} ExpressionRestContinues(s: string, j: nat, acc: Expr)
    requires j <= |s|
    ensures ContinuesOperand(s, j, acc, ExpressionRest(s, j, acc))
    decreases |s| - j, 0
  {
    var k := SkipSpaces(s, j);
    if !(At(s, k, '+') || At(s, k, '-')) {
      assert ExpressionRest(s, j, acc) == Ok(Parsed(acc, k));
      SpacesContinue(s, j, acc);
    } else {
      TermConsumes(s, k + 1);
      match Term(s, k + 1)
      case Fail =>
      case Ok(p) =>
        var t := if s[k] == '+' then Add(acc, p.tree) else Sub(acc, p.tree);
        ExpressionRestContinues(s, p.next, t);
        ExpressionTurnContinues(s, j, acc, p, t);
    }
  }

  /** One turn of the `+`/`-` loop continues the operand, given that the
      operand after the operator and the rest of the loop do. */
  lemma ExpressionTurnContinues(s: string, j: nat, acc: Expr, p: Parsed, t: Expr)
    requires j <= |s| && SkipSpaces(s, j) < |s|
    requires s[SkipSpaces(s, j)] == '+' || s[SkipSpaces(s, j)] == '-'
    requires Term(s, SkipSpaces(s, j) + 1) == Ok(p)
    requires t == if s[SkipSpaces(s, j)] == '+' then Add(acc, p.tree) else Sub(acc, p.tree)
    requires ConsumesOperand(s, SkipSpaces(s, j) + 1, Ok(p))
    requires ContinuesOperand(s, p.next, t, ExpressionRest(s, p.next, t))
    ensures ContinuesOperand(s, j, acc, ExpressionRest(s, j, acc))
  {
    var k := SkipSpaces(s, j);
    SkippedSpaces(s, j);
    ExpressionRestStep(s, j, acc, s[k], p);
    OperatorTurn(s, j, k, acc, p, t, ExpressionRest(s, p.next, t));
  }

  /** An operator loop that finds no operator stops after the spaces, which
      continue the operand before them. */
  lemma SpacesContinue(s: string, j: nat, acc: Expr)
    requires j <= |s|
    ensures ContinuesOperand(s, j, acc, Ok(Parsed(acc, SkipSpaces(s, j))))
  {
    SkippedSpaces(s, j);
  }

  /** One turn of an operator loop: spaces, an operator, an operand, then
      the rest of the loop, together continue the operand before them. */
  lemma OperatorTurn(s: string, j: nat, k: nat, acc: Expr, p: Parsed, t: Expr, r: Result<Parsed>)
    requires j <= k < |s| && IsParserChar(s[k])
    requires forall m :: j <= m < k ==> s[m] == ' '
    requires ConsumesOperand(s, k + 1, Ok(p))
    requires WellFormed(acc) && WellFormed(p.tree) ==> WellFormed(t)
    requires ContinuesOperand(s, p.next, t, r)
    ensures ContinuesOperand(s, j, acc, r)
  {
  }

  lemma {:induction false} TermConsumes(s: string, i: nat)
    requires i <= |s|
    ensures ConsumesOperand(s, i, Term(s, i))
    decreases |s| - i, 3
  {
    FactorConsumes(s, i);
    match Factor(s, i)
    case Fail =>
    case Ok(p) => TermRestContinues(s, p.next, p.tree);
  }

  lemma {:induction false} TermRestContinues(s: string, j: nat, acc: Expr)
    requires j <= |s|
    ensures ContinuesOperand(s, j, acc, TermRest(s, j, acc))
    decreases |s| - j, 0
  {
    var k := SkipSpaces(s, j);
    if !(At(s, k, '*') || At(s, k, '/')) {
      assert TermRest(s, j, acc) == Ok(Parsed(acc, k));
      SpacesContinue(s, j, acc);
    } else {
      FactorConsumes(s, k + 1);
      match Factor(s, k + 1)
      case Fail =>
      case Ok(p) =>
        var t := if s[k] == '*' then Mul(acc, p.tree) else Div(acc, p.tree);
        TermRestContinues(s, p.next, t);
        TermTurnContinues(s, j, acc, p, t);
    }
  }

  /** One turn of the `*`/`/` loop continues the operand, given that the
      operand after the operator and the rest of the loop do. */
  lemma TermTurnContinues(s: string, j: nat, acc: Expr, p: Parsed, t: Expr)
    requires j <= |s| && SkipSpaces(s, j) < |s|
    requires s[SkipSpaces(s, j)] == '*' || s[SkipSpaces(s, j)] == '/'
    requires Factor(s, SkipSpaces(s, j) + 1) == Ok(p)
    requires t == if s[SkipSpaces(s, j)] == '*' then Mul(acc, p.tree) else Div(acc, p.tree)
    requires ConsumesOperand(s, SkipSpaces(s, j) + 1, Ok(p))
    requires ContinuesOperand(s, p.next, t, TermRest(s, p.next, t))
    ensures ContinuesOperand(s, j, acc, TermRest(s, j, acc))
  {
    var k := SkipSpaces(s, j);
    SkippedSpaces(s, j);
    TermRestStep(s, j, acc, s[k], p);
    OperatorTurn(s, j, k, acc, p, t, TermRest(s, p.next, t));
  }

  lemma {:induction false} FactorConsumes(s: string, i: nat)
    requires i <= |s|
    ensures ConsumesOperand(s, i, Factor(s, i))
    decreases |s| - i, 1
  {
    var k := SkipSpaces(s, i);
    SkippedSpaces(s, i);
    if At(s, k, '+') || At(s, k, '-') {
      FactorConsumes(s, k + 1);
    } else {
      PrimaryConsumes(s, k);
    }
  }

  lemma {:induction false} PrimaryConsumes(s: string, k: nat)
    requires k <= |s|
    ensures ConsumesOperand(s, k, Primary(s, k))
    decreases |s| - k, 0
  {
    if At(s, k, '(') {
      ExpressionConsumes(s, k + 1);
      match Expression(s, k + 1)
      case Fail =>
      case Ok(p) => SkippedSpaces(s, p.next);
    }
  }
}
