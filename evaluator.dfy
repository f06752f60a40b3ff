/** `evalExpression` and the parser object it runs: a cursor (`pos`, and
    `ch`, the code of the character at `pos` or -1 at the end) that the
    methods advance while they build the result. Each method is proved to
    do exactly what the function of the same role in `Grammar` does. */
module Evaluator {
  import opened Results
  import opened Chars
  import opened Literals
  import opened Syntax
  import opened Grammar

  /** The value `ch` holds for position `i`: the character's code, or -1 past the end. */
  function CodeAt(s: string, i: int): int {
    if 0 <= i < |s| then s[i] as int else -1
  }

  /** The test on `ch` that starts and continues a number. */
  predicate IsNumberCode(code: int) {
    ('0' as int <= code <= '9' as int) || code == '.' as int
  }

  /** A method result matches the reference parse: same tree and cursor on
      success, a failure where the reference fails. */
  ghost predicate Agrees(r: Result<Expr>, pos: int, spec: Result<Parsed>) {
    match spec
    case Fail => r.Fail?
    case Ok(p) => r == Ok(p.tree) && pos == p.next
  }

  class Parser {
    const str: string
    var pos: int
    var ch: int

    /** Once parsing has started the cursor is inside the input (or just
        past it) and `ch` is the character under it. */
    ghost predicate Valid()
      reads this
    {
      0 <= pos <= |str| && ch == CodeAt(str, pos)
    }

    constructor (s: string)
      ensures str == s && pos == -1 && ch == 0
    {
      str := s;
      pos := -1;
      ch := 0;
    }

    method NextChar()
      requires -1 <= pos < |str|
      modifies this
      ensures pos == old(pos) + 1 && Valid()
    {
      pos := pos + 1;
      ch := if pos < |str| then str[pos] as int else -1;
    }

    method Eat(c: char) returns (eaten: bool)
      requires Valid()
      modifies this
      ensures Valid() && old(pos) <= pos
      ensures eaten == At(str, SkipSpaces(str, old(pos)), c)
      ensures pos == EatEnd(str, old(pos), c)
      ensures !eaten ==> !At(str, pos, ' ')
    {
      while ch == ' ' as int
        invariant Valid() && old(pos) <= pos
        invariant SkipSpaces(str, old(pos)) == SkipSpaces(str, pos)
        decreases |str| - pos
      {
        NextChar();
      }
      if ch == c as int {
        NextChar();
        return true;
      }
      return false;
    }

    method Parse() returns (r: Result<Expr>)
      requires pos == -1
      modifies this
      ensures r == ParseAll(str)
    {
      NextChar();
      r := ParseExpression();
      if r.Ok? && pos < |str| {
        r := Fail;
      }
    }

    method ParseExpression() returns (r: Result<Expr>)
      requires Valid()
      modifies this
      ensures Valid() && old(pos) <= pos
      ensures Agrees(r, pos, Expression(str, old(pos)))
      decreases |str| - pos, 4
    {
      var first := ParseTerm();
      if first.Fail? {
        return Fail;
      }
      var x := first.value;
      while true
        invariant Valid() && old(pos) < pos
        invariant Expression(str, old(pos)) == ExpressionRest(str, pos, x)
        decreases |str| - pos
      {
        ghost var here := pos;
        var plus := Eat('+');
        if plus {
          var t := ParseTerm();
          if t.Fail? {
            assert ExpressionRest(str, here, x).Fail?;
            return Fail;
          }
          ExpressionRestStep(str, here, x, '+', Parsed(t.value, pos));
          x := Add(x, t.value);
        } else {
          var minus := Eat('-');
          if minus {
            var t := ParseTerm();
            if t.Fail? {
              assert ExpressionRest(str, here, x).Fail?;
              return Fail;
            }
            ExpressionRestStep(str, here, x, '-', Parsed(t.value, pos));
            x := Sub(x, t.value);
          } else {
            assert ExpressionRest(str, here, x) == Ok(Parsed(x, pos));
            return Ok(x);
          }
        }
      }
    }

    method ParseTerm() returns (r: Result<Expr>)
      requires Valid()
      modifies this
      ensures Valid() && old(pos) <= pos
      ensures Agrees(r, pos, Term(str, old(pos)))
      decreases |str| - pos, 3
    {
      var first := ParseFactor();
      if first.Fail? {
        return Fail;
      }
      var x := first.value;
      while true
        invariant Valid() && old(pos) < pos
        invariant Term(str, old(pos)) == TermRest(str, pos, x)
        decreases |str| - pos
      {
        ghost var here := pos;
        var times := Eat('*');
        if times {
          var f := ParseFactor();
          if f.Fail? {
            assert TermRest(str, here, x).Fail?;
            return Fail;
          }
          TermRestStep(str, here, x, '*', Parsed(f.value, pos));
          x := Mul(x, f.value);
        } else {
          var over := Eat('/');
          if over {
            var f := ParseFactor();
            if f.Fail? {
              assert TermRest(str, here, x).Fail?;
              return Fail;
            }
            TermRestStep(str, here, x, '/', Parsed(f.value, pos));
            x := Div(x, f.value);
          } else {
            assert TermRest(str, here, x) == Ok(Parsed(x, pos));
            return Ok(x);
          }
        }
      }
    }

    method ParseFactor() returns (r: Result<Expr>)
      requires Valid()
      modifies this
      ensures Valid() && old(pos) <= pos
      ensures Agrees(r, pos, Factor(str, old(pos)))
      decreases |str| - pos, 1
    {
      var plus := Eat('+');
      if plus {
        r := ParseFactor();
        return;
      }
      var minus := Eat('-');
      if minus {
        var f := ParseFactor();
        if f.Fail? {
          return Fail;
        }
        return Ok(Neg(f.value));
      }
      r := ParsePrimary();
    }

    /** The part of `parseFactor` after the unary signs: a parenthesised
        expression or a number, starting where `eat` left the cursor. */
    method ParsePrimary() returns (r: Result<Expr>)
      requires Valid() && !At(str, pos, ' ')
      modifies this
      ensures Valid() && old(pos) <= pos
      ensures Agrees(r, pos, Primary(str, old(pos)))
      decreases |str| - pos, 0
    {
      var startPos := pos;
      var open := Eat('(');
      if open {
        r := ParseExpression();
        if r.Fail? {
          return;
        }
        var _ := Eat(')');
      } else if IsNumberCode(ch) {
        while IsNumberCode(ch)
          invariant Valid() && startPos <= pos
          invariant NumberEnd(str, startPos) == NumberEnd(str, pos)
          decreases |str| - pos
        {
          NextChar();
        }
        var run := str[startPos..pos];
        if ValidLiteral(run) {
          r := Ok(Num(run));
        } else {
          r := Fail;
        }
      } else {
        r := Fail;
      }
    }
  }

  /** `parseExpression(String)`: a fresh parser object run over `str`. */
  method ParseExpression(str: string) returns (r: Result<Expr>)
    ensures r == ParseAll(str)
  {
    var parser := new Parser(str);
    r := parser.Parse();
  }

  const ErrorText: string := "Error"

  /** What `evalExpression` computes before rendering: whitespace removed,
      then the parse, then the arithmetic; `Fail` where the parse throws. */
  function Evaluate(expr: string): (r: Result<Value>)
  {
    match ParseAll(StripWhitespace(expr))
    case Fail => Fail
    case Ok(e) => Ok(Eval(e))
  }

  /** A finite value with no fractional part. */
  predicate IsIntegral(v: Value) {
    v.Real? && v.x == v.x.Floor as real
  }

  /** The rendering of a result: an integral value as a whole number (the
      `(long)` branch), any other value as `valueOf` renders the double. */
  function Format(v: Value, valueOf: Value -> string): string
  {
    if IsIntegral(v) then IntToString(v.x.Floor) else valueOf(v)
  }

  /** The text `evalExpression` returns for `expr`. */
  function EvalText(expr: string, valueOf: Value -> string): string
  {
    match Evaluate(expr)
    case Fail => ErrorText
    case Ok(v) => Format(v, valueOf)
  }

  /** `evalExpression`: strip whitespace, run the parser object, and render
      the value, or "Error" when the parser fails. */
  method EvalExpression(expr: string, valueOf: Value -> string) returns (text: string)
    ensures text == EvalText(expr, valueOf)
  {
    var s := StripWhitespace(expr);
    var r := ParseExpression(s);
    if r.Fail? {
      return ErrorText;
    }
    var value := Eval(r.value);
    if IsIntegral(value) {
      text := IntToString(value.x.Floor);
    } else {
      text := valueOf(value);
    }
  }
}
