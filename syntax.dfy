/** The expressions the parser recognises, as a tree, and their value.
    The parser of the calculator computes the value while it parses; this
    model lets it build the tree instead, so that the shape it gives an
    input (precedence, associativity) can be stated exactly, and `Eval`
    gives the number the inline computation produces. */
module Syntax {
  import opened Chars
  import opened Literals

  datatype Expr =
    | Num(lit: string)          // a literal, as the run of digits and dots it was read from
    | Neg(operand: Expr)        // unary minus (unary plus leaves its operand as it is)
    | Add(left: Expr, right: Expr)
    | Sub(left: Expr, right: Expr)
    | Mul(left: Expr, right: Expr)
    | Div(left: Expr, right: Expr)

  /** Every literal in the tree is one `Double.parseDouble` accepts. */
  predicate WellFormed(e: Expr) {
    match e
    case Num(lit) => ValidLiteral(lit)
    case Neg(x) => WellFormed(x)
    case _ => WellFormed(e.left) && WellFormed(e.right)
  }

  /** The operator character of a binary node. */
  function OpChar(e: Expr): char
    requires !e.Num? && !e.Neg?
  {
    match e
    case Add(_, _) => '+'
    case Sub(_, _) => '-'
    case Mul(_, _) => '*'
    case Div(_, _) => '/'
  }

  /** A result of the arithmetic: an exact real, or one of the non-finite
      doubles (an infinity or NaN) that division by zero produces. */
  datatype Value = Real(x: real) | NonFinite

  function Negate(v: Value): Value {
    if v.Real? then Real(-v.x) else NonFinite
  }

  function Plus(a: Value, b: Value): Value {
    if a.Real? && b.Real? then Real(a.x + b.x) else NonFinite
  }

  function Minus(a: Value, b: Value): Value {
    if a.Real? && b.Real? then Real(a.x - b.x) else NonFinite
  }

  function Times(a: Value, b: Value): Value {
    if a.Real? && b.Real? then Real(a.x * b.x) else NonFinite
  }

  /** Division: by zero it gives a non-finite value, never a failure. */
  function Quotient(a: Value, b: Value): Value {
    if a.Real? && b.Real? && b.x != 0.0 then Real(a.x / b.x) else NonFinite
  }

  function Eval(e: Expr): Value
    requires WellFormed(e)
  {
    match e
    case Num(lit) => Real(LiteralValue(lit))
    case Neg(x) => Negate(Eval(x))
    case Add(l, r) => Plus(Eval(l), Eval(r))
    case Sub(l, r) => Minus(Eval(l), Eval(r))
    case Mul(l, r) => Times(Eval(l), Eval(r))
    case Div(l, r) => Quotient(Eval(l), Eval(r))
  }

  /** The tree written back as text, every binary node in parentheses. */
  function Print(e: Expr): (t: string)
    requires WellFormed(e)
    ensures |t| > 0
    ensures IsNumberChar(t[0]) || t[0] == '-' || t[0] == '('
  {
    match e
    case Num(lit) => lit
    case Neg(x) => "-" + Print(x)
    case _ => "(" + Print(e.left) + [OpChar(e)] + Print(e.right) + ")"
  }

  /** Printing never produces whitespace, so removing whitespace before
      evaluation leaves a printed expression unchanged. */
  lemma {:induction false} PrintHasNoWhitespace(e: Expr)
    requires WellFormed(e)
    ensures forall k :: 0 <= k < |Print(e)| ==> !IsWhitespace(Print(e)[k])
  {
    match e
    case Num(lit) =>
    case Neg(x) => PrintHasNoWhitespace(x);
    case _ => PrintHasNoWhitespace(e.left); PrintHasNoWhitespace(e.right);
  }
}
