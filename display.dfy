/** The calculator's display: a single line of text that every button edits.
    The pure functions give the text after one button; the `Calculator`
    class holds the text and has one method per button, each proved to
    leave exactly the text its function gives. */
module Display {
  import opened Results
  import opened Chars
  import opened Literals
  import opened Syntax
  import opened Evaluator

  /** `clearIfError`: "Error" is wiped before new input; any other text stays. */
  function AfterClearIfError(t: string): (r: string)
    ensures r != ErrorText
    ensures t != ErrorText ==> r == t
    ensures t == ErrorText ==> r == []
  {
    if t == ErrorText then [] else t
  }

  /** `handleOperator`: an empty display accepts only `-`; a lone `-` is
      kept as it is; an operator at the end is replaced; otherwise the
      operator is appended. */
  function AfterOperator(t: string, op: char): (r: string)
    requires IsOperator(op)
    ensures t == [] ==> r == (if op == '-' then "-" else [])
    ensures t == "-" ==> r == t
    ensures t != [] && t != "-" ==>
      && |r| > 0 && r[|r| - 1] == op
      && r[..|r| - 1] == (if IsOperator(t[|t| - 1]) then t[..|t| - 1] else t)
      && |r| == (if IsOperator(t[|t| - 1]) then |t| else |t| + 1)
  {
    if t == [] then (if op == '-' then "-" else [])
    else if t == "-" then t
    else if IsOperator(t[|t| - 1]) then t[..|t| - 1] + [op]
    else t + [op]
  }

  /** The delete button: the last character goes, unless the display is
      empty or shows "Error". */
  function AfterDelete(t: string): (r: string)
    ensures t == [] || t == ErrorText ==> r == t
    ensures t != [] && t != ErrorText ==> r + [t[|t| - 1]] == t
  {
    if |t| > 0 && t != ErrorText then t[..|t| - 1] else t
  }

  /** The buttons of the keypad. */
  datatype Button =
    | Digit(d: nat)
    | DoubleZero
    | Operator(op: char)
    | Decimal
    | Equals
    | Delete
    | Clear

  predicate ValidButton(b: Button) {
    match b
    case Digit(d) => d < 10
    case Operator(op) => IsOperator(op)
    case _ => true
  }

  /** The display after pressing `b`; `valueOf` renders a non-integral result. */
  function AfterButton(t: string, b: Button, valueOf: Value -> string): string
    requires ValidButton(b)
  {
    match b
    case Digit(d) => AfterClearIfError(t) + [DigitChar(d)]
    case DoubleZero => AfterClearIfError(t) + "00"
    case Operator(op) => AfterOperator(AfterClearIfError(t), op)
    case Decimal => AfterClearIfError(t) + "."
    case Equals => EvalText(t, valueOf)
    case Delete => AfterDelete(t)
    case Clear => []
  }

  /** Key codes of the keys the key listener tests by code. */
  const BackSpaceKey: int := 8
  const EnterKey: int := 10
  const DeleteKey: int := 127

  /** The key listener: the button a key press clicks, tested in the
      listener's order, or none for a key it ignores. */
  function KeyButton(keyCode: int, c: char): (b: Option<Button>)
    ensures b.Some? ==> ValidButton(b.value)
  {
    if keyCode == BackSpaceKey then Some(Delete)
    else if keyCode == DeleteKey then Some(Clear)
    else if keyCode == EnterKey then Some(Equals)
    else if c == '=' then Some(Equals)
    else if c == '.' || c == ',' then Some(Decimal)
    else if IsDigit(c) then Some(Digit(DigitValue(c)))
    else if IsOperator(c) then Some(Operator(c))
    else None
  }

  /** Typing a digit, an operator or a dot on the keyboard has the effect of
      clicking the button that shows that character. */
  lemma KeysTypeTheirCharacter(keyCode: int, c: char, t: string, valueOf: Value -> string)
    requires keyCode != BackSpaceKey && keyCode != DeleteKey && keyCode != EnterKey
    requires IsDigit(c) || IsOperator(c) || c == '.'
    ensures KeyButton(keyCode, c).Some?
    ensures IsNumberChar(c) ==>
              AfterButton(t, KeyButton(keyCode, c).value, valueOf) == AfterClearIfError(t) + [c]
    ensures IsOperator(c) ==>
              AfterButton(t, KeyButton(keyCode, c).value, valueOf) == AfterOperator(AfterClearIfError(t), c)
  {
    if IsDigit(c) {
      assert DigitChar(DigitValue(c)) == c;
    }
  }

  /** No two operators stand next to each other. */
  predicate OperatorsApart(t: string) {
    forall k :: 0 < k < |t| ==> !(IsOperator(t[k - 1]) && IsOperator(t[k]))
  }

  /** Wiping "Error" twice is wiping it once. */
  lemma ClearIfErrorIdempotent(t: string)
    ensures AfterClearIfError(AfterClearIfError(t)) == AfterClearIfError(t)
  {
  }

  /** An empty display takes `-` (to start a negative number) and nothing else. */
  lemma EmptyTakesOnlyMinus(op: char)
    requires IsOperator(op)
    ensures AfterOperator([], op) != [] <==> op == '-'
    ensures op == '-' ==> AfterOperator([], op) == "-"
  {
  }

  /** A display showing just `-` is not changed by any operator. */
  lemma LoneMinusKept(op: char)
    requires IsOperator(op)
    ensures AfterOperator("-", op) == "-"
  {
  }

  /** Operators never stack: if no two operators stand together before an
      operator key, none do after it, and the text then ends on that
      operator unless the display was empty or a lone `-`. */
  lemma OperatorNeverStacks(t: string, op: char)
    requires IsOperator(op) && OperatorsApart(t)
    ensures OperatorsApart(AfterOperator(t, op))
    ensures t != [] && t != "-" ==>
              var r := AfterOperator(t, op);
              |r| > 0 && r[|r| - 1] == op
  {
    var r := AfterOperator(t, op);
    if t != [] && t != "-" {
      var n := |t|;
      var kept := if IsOperator(t[n - 1]) then t[..n - 1] else t;
      assert r == kept + [op];
      forall k | 0 < k < |r| ensures !(IsOperator(r[k - 1]) && IsOperator(r[k])) {
        if k < |kept| {
          assert r[k - 1] == t[k - 1] && r[k] == t[k];
        } else if IsOperator(t[n - 1]) {
          assert r[k - 1] == t[n - 2] && IsOperator(t[n - 1]);
        } else {
          assert r[k - 1] == t[n - 1];
        }
      }
    }
  }

  /** The last operator pressed wins: a second operator replaces the first. */
  lemma LastOperatorWins(t: string, first: char, second: char)
    requires IsOperator(first) && IsOperator(second)
    requires |t| >= 2 || (|t| == 1 && !IsOperator(t[0]))
    ensures AfterOperator(AfterOperator(t, first), second) == AfterOperator(t, second)
  {
    var n := |t|;
    var once := AfterOperator(t, first);
    if IsOperator(t[n - 1]) {
      assert once[..n - 1] == t[..n - 1];
    } else {
      assert once[..n] == t;
    }
  }

  /** Delete takes back a digit or a dot just typed (after "Error" was wiped). */
  lemma DeleteUndoesTyping(t: string, c: char)
    requires IsNumberChar(c)
    ensures AfterDelete(AfterClearIfError(t) + [c]) == AfterClearIfError(t)
  {
    var typed := AfterClearIfError(t) + [c];
    assert typed[|typed| - 1] == c;
    assert typed != ErrorText by {
      assert ErrorText[|ErrorText| - 1] == 'r';
    }
    assert typed[..|typed| - 1] == AfterClearIfError(t);
  }

  /** "Error" appears only as the result of equals, or when delete takes
      the last character off a text that begins with "Error". */
  lemma ErrorOnlyFromEquals(t: string, b: Button, valueOf: Value -> string)
    requires ValidButton(b)
    ensures AfterButton(t, b, valueOf) == ErrorText ==>
              b == Equals || (b == Delete && |t| >= 5 && t[..5] == ErrorText)
  {
    var r := AfterButton(t, b, valueOf);
    assert ErrorText[4] == 'r' && |ErrorText| == 5;
    match b
    case Digit(d) => assert r[|r| - 1] == DigitChar(d);
    case DoubleZero => assert r[|r| - 1] == '0';
    case Decimal => assert r[|r| - 1] == '.';
    case Operator(op) =>
      var u := AfterClearIfError(t);
      if u != [] && u != "-" {
        assert r[|r| - 1] == op;
      }
    case Equals =>
    case Delete =>
      if t != ErrorText && |t| > 0 && |t| >= 6 {
        assert t[..5] == t[..|t| - 1][..5];
      }
    case Clear =>
  }

  /** After "Error", typing starts from an empty display. */
  lemma ErrorThenTypingStartsAfresh(b: Button, valueOf: Value -> string)
    requires ValidButton(b) && !b.Equals? && !b.Delete? && !b.Clear?
    ensures AfterButton(ErrorText, b, valueOf) == AfterButton([], b, valueOf)
  {
  }

  lemma IntToStringOperatorsApart(n: int)
    ensures OperatorsApart(IntToString(n))
  {
    var r := IntToString(n);
    var ds := NatToString(if n < 0 then -n else n);
    forall k | 0 < k < |r| ensures !IsOperator(r[k]) {
      if n < 0 {
        assert r[k] == ds[k - 1];
      }
    }
  }

  lemma AppendKeepsApart(u: string, s: string)
    requires OperatorsApart(u)
    requires forall k :: 0 <= k < |s| ==> !IsOperator(s[k])
    ensures OperatorsApart(u + s)
  {
    var w := u + s;
    forall k | 0 < k < |w| ensures !(IsOperator(w[k - 1]) && IsOperator(w[k])) {
      if k < |u| {
        assert w[k - 1] == u[k - 1] && w[k] == u[k];
      } else {
        assert w[k] == s[k - |u|];
      }
    }
  }

  /** Whatever equals shows keeps operators apart, given that `valueOf` does. */
  lemma EqualsKeepsOperatorsApart(t: string, valueOf: Value -> string)
    requires forall v :: OperatorsApart(valueOf(v))
    ensures OperatorsApart(EvalText(t, valueOf))
  {
    match Evaluate(t)
    case Fail =>
      assert forall k :: 0 <= k < |ErrorText| ==> !IsOperator(ErrorText[k]);
    case Ok(v) =>
      if IsIntegral(v) {
        IntToStringOperatorsApart(v.x.Floor);
      }
  }

  /** No button puts two operators next to each other, given that the
      rendering of doubles does not (`String.valueOf(double)` writes at
      most a sign and an exponent sign, never two together). */
  lemma ButtonsKeepOperatorsApart(t: string, b: Button, valueOf: Value -> string)
    requires ValidButton(b) && OperatorsApart(t)
    requires forall v :: OperatorsApart(valueOf(v))
    ensures OperatorsApart(AfterButton(t, b, valueOf))
  {
    var u := AfterClearIfError(t);
    assert OperatorsApart(u);
    match b
    case Digit(d) => AppendKeepsApart(u, [DigitChar(d)]);
    case DoubleZero => AppendKeepsApart(u, "00");
    case Decimal => AppendKeepsApart(u, ".");
    case Operator(op) => OperatorNeverStacks(u, op);
    case Equals =>
      EqualsKeepsOperatorsApart(t, valueOf);
    case Delete =>
      if |t| > 0 && t != ErrorText {
        assert forall k :: 0 <= k < |t| - 1 ==> t[..|t| - 1][k] == t[k];
      }
    case Clear =>
  }

  class Calculator {
    /** The text of the display. */
    var text: string

    constructor ()
      ensures text == []
    {
      text := [];
    }

    method ClearIfError()
      modifies this
      ensures text == AfterClearIfError(old(text))
    {
      if text == ErrorText {
        text := [];
      }
    }

    method HandleOperator(op: char)
      requires IsOperator(op)
      modifies this
      ensures text == AfterOperator(old(text), op)
    {
      var current := text;
      if |current| == 0 {
        if op == '-' {
          text := [op];
        }
        return;
      }
      if current == "-" {
        return;
      }
      var lastChar := current[|current| - 1];
      if IsOperator(lastChar) {
        text := current[..|current| - 1] + [op];
      } else {
        text := current + [op];
      }
    }

    method PressDigit(d: nat)
      requires d < 10
      modifies this
      ensures text == AfterClearIfError(old(text)) + [DigitChar(d)]
    {
      ClearIfError();
      text := text + [DigitChar(d)];
    }

    method PressDoubleZero()
      modifies this
      ensures text == AfterClearIfError(old(text)) + "00"
    {
      ClearIfError();
      text := text + "00";
    }

    method PressOperator(op: char)
      requires IsOperator(op)
      modifies this
      ensures text == AfterOperator(AfterClearIfError(old(text)), op)
    {
      ClearIfError();
      HandleOperator(op);
    }

    method PressDecimal()
      modifies this
      ensures text == AfterClearIfError(old(text)) + "."
    {
      ClearIfError();
      text := text + ".";
    }

    method PressEquals(valueOf: Value -> string)
      modifies this
      ensures text == EvalText(old(text), valueOf)
    {
      var result := EvalExpression(text, valueOf);
      text := result;
    }

    method PressDelete()
      modifies this
      ensures text == AfterDelete(old(text))
    {
      var current := text;
      if |current| > 0 && current != ErrorText {
        text := current[..|current| - 1];
      }
    }

    method PressClear()
      modifies this
      ensures text == []
    {
      text := [];
    }

    /** A click on `b`, dispatched to its handler. */
    method Press(b: Button, valueOf: Value -> string)
      requires ValidButton(b)
      modifies this
      ensures text == AfterButton(old(text), b, valueOf)
    {
      match b
      case Digit(d) => PressDigit(d);
      case DoubleZero => PressDoubleZero();
      case Operator(op) => PressOperator(op);
      case Decimal => PressDecimal();
      case Equals => PressEquals(valueOf);
      case Delete => PressDelete();
      case Clear => PressClear();
    }

    /** `keyPressed`: the button the key stands for is clicked; other keys
        leave the display as it is. */
    method KeyPressed(keyCode: int, c: char, valueOf: Value -> string)
      modifies this
      ensures KeyButton(keyCode, c).Some? ==>
                text == AfterButton(old(text), KeyButton(keyCode, c).value, valueOf)
      ensures KeyButton(keyCode, c).None? ==> text == old(text)
    {
      var b := KeyButton(keyCode, c);
      if b.Some? {
        Press(b.value, valueOf);
      }
    }
  }
}
