# Calculator — a verified model of the expression evaluator and the display rules

The calculator is a small desktop program with one line of display text and a
keypad. Digits, `00`, `.` and the operators `+ - * / %` are typed onto the
display. Equals replaces the text with its value, or with `Error`. Delete takes
off the last character, and C clears the display. The value comes from
`evalExpression`. It strips whitespace and runs a recursive-descent parser
object: a cursor (`pos`, and `ch`, the code under it or -1 past the end) with
the methods `nextChar`, `eat`, `parse`, `parseExpression`, `parseTerm` and
`parseFactor`. An integral result is shown as a whole number and any other
result as `String.valueOf(double)` renders it.

This project models that core in Dafny and proves what it does.

- Grammar: holds the parser as pure functions that thread the cursor
  position and build an expression tree (`Syntax.Expr`).
- Evaluator.Parser: is the parser object itself, a class with `pos` and `ch`
  fields and loops. Each of its methods is proved to agree with its `Grammar`
  function.
- Syntax.Eval: gives a tree's value. The arithmetic is exact over the reals.
  Division by zero gives a non-finite value, never a failure.
- Shapes: proves the grammar's promises:
  - a printed tree reads back as the same tree;
  - a sum of products typed without parentheses groups products first and
    folds from the left;
  - a missing `)` is tolerated, while an extra `)` fails;
  - unary signs stack;
  - a run of digits and dots is accepted exactly when it is a valid literal.
- Outcomes: states what `evalExpression` returns for the text the user
  typed.
- Display: holds one pure function per button and a `Calculator` class with
  the display text and one method per button. It also holds the key mapping
  and the display invariants.

Two behaviours of the code are worth knowing:

- **`%` is never evaluated.** The `%` button (line 437) puts `%` on the
  display, but `parseTerm` only eats `*` and `/`. Any `%` is therefore left
  over or unexpected, and the input gives `Error`
  (`Outcomes.RemainderIsError`).
- **Spaces inside a number.** `evalExpression` removes whitespace before
  parsing (line 604), so `3 3` shows `33` (`Outcomes.SpacesInsideNumber`).
  The parser alone rejects it, because the second 3 is left over
  (`Outcomes.SpaceEndsNumber`).

## Model

| member | source | states |
|---|---|---|
| Chars.IsOperator | src/com/calculator/Calculator.java:61-70 | a character is an operator exactly when it is one of `+ - * / %` |
| Chars.IsOperatorByIndex | src/com/calculator/Calculator.java:68-70 | the membership test answers exactly as the search of the operator string with `indexOf` does |
| Chars.IndexOf | src/com/calculator/Calculator.java:69 | `indexOf`: -1 exactly when the character is absent, otherwise the index of its first occurrence |
| Chars.IsWhitespace | src/com/calculator/Calculator.java:604 | the characters of the `\s` class; no contract of its own, `Chars.StripWhitespace` and `Syntax.PrintHasNoWhitespace` use it |
| Chars.StripWhitespace | src/com/calculator/Calculator.java:604 | the result contains no whitespace and holds the same characters as the input apart from whitespace; text without whitespace is returned unchanged |
| Chars.StripOne | src/com/calculator/Calculator.java:604 | one whitespace character is removed, any other character is kept |
| Chars.StripConcat | src/com/calculator/Calculator.java:604 | stripping a concatenation strips each part, so the kept characters stay in order and keep their number |
| Literals.ValidLiteral | src/com/calculator/Calculator.java:712 | the runs `Double.parseDouble` accepts here: at most one dot and at least one digit; no contract of its own, `Literals.LiteralExamples` and `Shapes.NumberRun` state it |
| Literals.LiteralValue | src/com/calculator/Calculator.java:712 | the exact decimal value of a valid run, never negative (`parseDouble` rounds it to a double, see Left out); `Literals.DigitsAreLiteral` and `Literals.LiteralExamples` state values |
| Literals.IntToString | src/com/calculator/Calculator.java:609 | `String.valueOf(long)`: the digits of the magnitude, with a leading `-` exactly for a negative number |
| Literals.NatToString | src/com/calculator/Calculator.java:609 | the rendering of a whole number is a non-empty digit string with no leading zero that reads back as the number |
| Literals.DigitsAreLiteral | src/com/calculator/Calculator.java:712 | every non-empty digit string is a literal `Double.parseDouble` accepts, and its value is the digits' value |
| Literals.LiteralExamples | src/com/calculator/Calculator.java:712 | "5." and ".5" are accepted with values 5 and 0.5; "." and "1.2.3" are rejected |
| Grammar.SkipSpaces | src/com/calculator/Calculator.java:642-644 | the loop in `eat` stops at or after where it starts and never past the end; `Grammar.SkippedSpaces` says what it passes over |
| Grammar.SkippedSpaces | src/com/calculator/Calculator.java:642-644 | the loop in `eat` passes over spaces only and stops on a non-space or at the end |
| Grammar.EatEnd | src/com/calculator/Calculator.java:641-650 | `eat(c)` moves the cursor past the spaces, then one further exactly when `c` is the next character |
| Grammar.NumberEnd | src/com/calculator/Calculator.java:709-711 | the number scan passes over digits and dots only and stops on any other character or at the end |
| Grammar.Expression | src/com/calculator/Calculator.java:667-678 | a successful `parseExpression` moves the cursor forward by at least one character, never past the end |
| Grammar.ExpressionRest | src/com/calculator/Calculator.java:669-677 | the `+`/`-` loop never moves the cursor back or past the end |
| Grammar.ExpressionRestStep | src/com/calculator/Calculator.java:670-673 | one turn of the `+`/`-` loop folds the next term into the left operand, so the sum groups from the left |
| Grammar.Term | src/com/calculator/Calculator.java:680-691 | a successful `parseTerm` moves the cursor forward by at least one character, never past the end |
| Grammar.TermRest | src/com/calculator/Calculator.java:682-690 | the `*`/`/` loop never moves the cursor back or past the end |
| Grammar.TermRestStep | src/com/calculator/Calculator.java:683-686 | one turn of the `*`/`/` loop folds the next factor into the left operand, so the product groups from the left |
| Grammar.Factor | src/com/calculator/Calculator.java:693-717 | a successful `parseFactor` moves the cursor forward by at least one character, never past the end |
| Grammar.Primary | src/com/calculator/Calculator.java:701-717 | a parenthesised expression or a number consumes at least one character, never past the end |
| Grammar.ExpressionConsumes | src/com/calculator/Calculator.java:667-678 | a parsed expression consumed only parser characters, ends on a digit, a dot, `)` or a space, does not start with `*`, `/` or `)`, has each of those right after a character that closes an operand, and holds only valid literals |
| Grammar.ExpressionRestContinues | src/com/calculator/Calculator.java:669-677 | the `+`/`-` loop consumes only parser characters, puts each `*`, `/` and `)` after a character that closes an operand and, if it moved, ends on such a character |
| Grammar.TermConsumes | src/com/calculator/Calculator.java:680-691 | a parsed term consumed only parser characters, ends on a character that closes an operand, does not start with `*`, `/` or `)`, has each of those after a closing character, and holds only valid literals |
| Grammar.TermRestContinues | src/com/calculator/Calculator.java:682-690 | the `*`/`/` loop consumes only parser characters, puts each `*`, `/` and `)` after a character that closes an operand and, if it moved, ends on such a character |
| Grammar.FactorConsumes | src/com/calculator/Calculator.java:693-717 | a parsed factor consumed only parser characters, ends on a character that closes an operand, does not start with `*`, `/` or `)`, has each of those after a closing character, and holds only valid literals |
| Grammar.PrimaryConsumes | src/com/calculator/Calculator.java:701-717 | a parenthesised expression or number consumed only parser characters, does not start with `*`, `/` or `)`, has each of those after a closing character, and holds only valid literals |
| Grammar.Negated | src/com/calculator/Calculator.java:699 | unary minus wraps the operand in a negation and keeps the cursor and the failure; no contract of its own, `Shapes.SignsParsed` and `Evaluator.Parser.ParseFactor` state it |
| Grammar.Closed | src/com/calculator/Calculator.java:703-706 | after `(` and the expression, the parse succeeds whether or not `)` is there; the cursor passes `)` only when it is present; no contract of its own, `Shapes.ParenthesesGroup` and `Evaluator.Parser.ParsePrimary` state it |
| Grammar.Number | src/com/calculator/Calculator.java:707-712 | the maximal run of digits and dots becomes a literal when `parseDouble` accepts it and a failure otherwise; no contract of its own, `Shapes.NumberRun` and `Evaluator.Parser.ParsePrimary` state it |
| Grammar.ParseAll | src/com/calculator/Calculator.java:652-659 | `parse` succeeds only if it consumed the whole input. That input is non-empty, holds only digits, dots, `+ - * / ( )` and spaces, ends on a digit, a dot, `)` or a space, and has every `*`, `/` and `)` right after a digit, a dot, `)` or a space. Every literal in the result is valid |
| Evaluator.Parser.constructor | src/com/calculator/Calculator.java:635 | the cursor starts before the input (`pos` is -1) |
| Evaluator.Parser.NextChar | src/com/calculator/Calculator.java:637-639 | the cursor moves one place and `ch` becomes the character there, or -1 past the end |
| Evaluator.Parser.Eat | src/com/calculator/Calculator.java:641-650 | the cursor ends where `eat` ends it; the answer says whether the character was there after the spaces; a failed `eat` leaves the cursor off a space; the cursor never moves back |
| Evaluator.Parser.Parse | src/com/calculator/Calculator.java:652-659 | the method result is exactly `ParseAll`: failure on leftover input, the tree otherwise |
| Evaluator.Parser.ParseExpression | src/com/calculator/Calculator.java:667-678 | the loop keeps the cursor inside the input and leaves the tree and cursor `Grammar.Expression` gives, failing exactly when it fails; on every outcome the cursor never moves back |
| Evaluator.Parser.ParseTerm | src/com/calculator/Calculator.java:680-691 | the loop keeps the cursor inside the input and leaves the tree and cursor `Grammar.Term` gives, failing exactly when it fails; on every outcome the cursor never moves back |
| Evaluator.Parser.ParseFactor | src/com/calculator/Calculator.java:693-700 | unary signs recurse as in `Grammar.Factor`, with the same tree, cursor and failures; the cursor never moves back |
| Evaluator.Parser.ParsePrimary | src/com/calculator/Calculator.java:701-717 | `(` expression with an optional `)`, or the maximal run of digits and dots converted by `parseDouble`, or failure on any other character, as in `Grammar.Primary`; the cursor never moves back |
| Evaluator.ParseExpression | src/com/calculator/Calculator.java:630-631 | a fresh parser object over the string yields exactly `ParseAll` of it |
| Evaluator.Evaluate | src/com/calculator/Calculator.java:602-616 | whitespace removed, then parsed, then evaluated; a failure where the parser throws. No contract of its own: `Outcomes.ErrorExactlyOnFailure` and `Outcomes.PrintedText` state it |
| Evaluator.IsIntegral | src/com/calculator/Calculator.java:608 | the test `value == (long) value`, without the long range of the cast (see Left out): a finite value without a fractional part. No contract of its own |
| Evaluator.Format | src/com/calculator/Calculator.java:608-612 | an integral value as a whole number, any other as `String.valueOf(double)`. No contract of its own: `Outcomes.IntegerEvaluatesToItself` and `Outcomes.DivisionByZeroIsNotError` state it |
| Evaluator.EvalText | src/com/calculator/Calculator.java:602-616 | the text `evalExpression` returns: "Error" on failure, `Format` of the value otherwise. No contract of its own: the `Outcomes` lemmas state it |
| Evaluator.EvalExpression | src/com/calculator/Calculator.java:602-616 | the returned text is "Error" when the stripped input does not parse; otherwise it is the whole number for an integral value and the double's rendering for any other |
| Syntax.Eval | src/com/calculator/Calculator.java:671-699 | the value the parser's inline arithmetic computes for a tree: `+=`, `-=`, `*=`, `/=` and unary minus. No contract of its own: `Shapes.SignsValue`, `Outcomes.PrecedenceValue` and `Outcomes.DivisionByZeroIsNotError` state values |
| Syntax.Negate | src/com/calculator/Calculator.java:699 | unary minus; no contract of its own, `Shapes.NegationParity` states that negating twice is the identity |
| Syntax.Plus | src/com/calculator/Calculator.java:671 | `x += parseTerm()`; no contract of its own |
| Syntax.Minus | src/com/calculator/Calculator.java:673 | `x -= parseTerm()`; no contract of its own |
| Syntax.Times | src/com/calculator/Calculator.java:684 | `x *= parseFactor()`; no contract of its own, `Outcomes.ThreeTimesFour` gives an instance |
| Syntax.Quotient | src/com/calculator/Calculator.java:686 | `x /= parseFactor()`: a zero divisor gives a non-finite value, never an exception; no contract of its own, `Outcomes.DivisionByZeroIsNotError` states it |
| Shapes.PrintRoundTrip | src/com/calculator/Calculator.java:661-717 | every expression tree, written out with a parenthesis around each binary operation, parses back to the same tree |
| Shapes.SumOfProducts | src/com/calculator/Calculator.java:661-691 | typed without parentheses, `*` and `/` bind tighter than `+` and `-`, and operators of equal precedence group from the left |
| Shapes.ParenthesesGroup | src/com/calculator/Calculator.java:703-706 | a parenthesised sum is that sum, whether or not the closing `)` is typed |
| Shapes.ExtraCloseFails | src/com/calculator/Calculator.java:655-657 | a `)` that closes nothing is left over, and the parse fails |
| Shapes.SignedOperand | src/com/calculator/Calculator.java:694-700 | any run of unary signs before an operand parses as a negation for each `-` and nothing for each `+` |
| Shapes.SignsValue | src/com/calculator/Calculator.java:694-700 | stacked signs give the operand's value, negated exactly when the number of `-` signs is odd |
| Shapes.NumberRun | src/com/calculator/Calculator.java:707-715 | a run of digits and dots parses exactly when it has at most one dot and at least one digit, and then it is that literal |
| Outcomes.ErrorExactlyOnFailure | src/com/calculator/Calculator.java:602-616 | "Error" is returned if and only if parsing fails, provided the rendering of doubles never spells "Error" |
| Outcomes.MissingOperandIsError | src/com/calculator/Calculator.java:713-715 | input that is empty, or ends on an operator or `(` once whitespace is removed, gives "Error" |
| Outcomes.UnexpectedCharacterIsError | src/com/calculator/Calculator.java:713-715 | one character that is neither whitespace nor a parser character, anywhere in the input, gives "Error" |
| Outcomes.MisplacedOperatorIsError | src/com/calculator/Calculator.java:713-715 | a `*`, `/` or `)` at the start, or right after an operator or `(`, once whitespace is removed, is an unexpected character and gives "Error" |
| Outcomes.MisplacedOperatorExamples | src/com/calculator/Calculator.java:713-715 | "*5", "2+*3", "()" and "2*)" give "Error" |
| Outcomes.RemainderIsError | src/com/calculator/Calculator.java:680-691 | any input containing `%` gives "Error" |
| Outcomes.NumberInput | src/com/calculator/Calculator.java:707-712 | typed digits and dots give "Error" when they have two dots or no digit, and the rendered exact value otherwise |
| Outcomes.PrintedText | src/com/calculator/Calculator.java:602-616 | evaluating a written-out tree shows the rendering of the tree's value |
| Outcomes.IntegerEvaluatesToItself | src/com/calculator/Calculator.java:608-609 | a whole number shown on the display evaluates to itself (the program agrees only for magnitudes up to 2^53, see Left out) |
| Outcomes.EqualsIdempotentOnIntegers | src/com/calculator/Calculator.java:461-468 | pressing equals again after an integral result leaves the display as it is |
| Outcomes.DivisionByZeroIsNotError | src/com/calculator/Calculator.java:686 | division by zero is not an error; the non-finite double is rendered |
| Outcomes.PrecedenceExample | src/com/calculator/Calculator.java:667-691 | "2+3*4" parses as 2 + (3 * 4) |
| Outcomes.PrecedenceShown | src/com/calculator/Calculator.java:602-616 | "2+3*4" shows "14" |
| Outcomes.SubtractionExample | src/com/calculator/Calculator.java:672-673 | "8-3-2" parses as (8 - 3) - 2 |
| Outcomes.DivisionExample | src/com/calculator/Calculator.java:685-686 | "8/4/2" parses as (8 / 4) / 2 |
| Outcomes.MissingCloseExample | src/com/calculator/Calculator.java:703-706 | "(2+3" parses as 2 + 3 |
| Outcomes.ExtraCloseExample | src/com/calculator/Calculator.java:655-657 | "3)" fails |
| Outcomes.SignsExample | src/com/calculator/Calculator.java:694-700 | "-+-5" parses as 5 negated twice |
| Outcomes.SpaceEndsNumber | src/com/calculator/Calculator.java:641-659 | given to the parser directly, "3 3" fails on the leftover second 3 |
| Outcomes.SpacesInsideNumber | src/com/calculator/Calculator.java:604 | through `evalExpression`, "3 3" shows "33" because whitespace is removed first |
| Display.AfterClearIfError | src/com/calculator/Calculator.java:80-84 | the result is never "Error": "Error" becomes empty and any other text is kept |
| Display.AfterOperator | src/com/calculator/Calculator.java:99-127 | `handleOperator`: an empty display takes only `-`; a lone `-` stays; otherwise the text ends on the operator, and the text before it is the old text with a trailing operator replaced or, without one, the whole old text |
| Display.AfterDelete | src/com/calculator/Calculator.java:482-487 | empty text and "Error" stay; any other text loses exactly its last character |
| Display.AfterButton | src/com/calculator/Calculator.java:308-496 | the text after one click, dispatched to the rule of that button. No contract of its own: `Display.ErrorOnlyFromEquals`, `Display.ButtonsKeepOperatorsApart` and `Display.ErrorThenTypingStartsAfresh` state it |
| Display.ClearIfErrorIdempotent | src/com/calculator/Calculator.java:80-84 | wiping "Error" twice is wiping it once |
| Display.EmptyTakesOnlyMinus | src/com/calculator/Calculator.java:103-109 | on an empty display, an operator key changes the text only if it is `-`, and then the text is "-" |
| Display.LoneMinusKept | src/com/calculator/Calculator.java:113-115 | a display showing only "-" is left alone by every operator |
| Display.OperatorNeverStacks | src/com/calculator/Calculator.java:99-127 | an operator key never puts two operators side by side, and on any other non-empty text it leaves that operator at the end |
| Display.LastOperatorWins | src/com/calculator/Calculator.java:117-126 | two operator keys in a row have the effect of the second alone, on a display of two or more characters or of one character that is not an operator (on an empty display, `-` then `+` leaves "-", where `+` alone leaves it empty) |
| Display.DeleteUndoesTyping | src/com/calculator/Calculator.java:482-487 | delete takes back a digit or dot just typed |
| Display.ErrorOnlyFromEquals | src/com/calculator/Calculator.java:308-496 | "Error" appears only from equals, or from deleting the last character of a text that starts with "Error" |
| Display.ErrorThenTypingStartsAfresh | src/com/calculator/Calculator.java:80-84 | after "Error", a digit, `00`, operator or dot acts as on an empty display |
| Display.EqualsKeepsOperatorsApart | src/com/calculator/Calculator.java:461-468 | the text equals shows never has two operators side by side, given that the rendering of doubles does not |
| Display.ButtonsKeepOperatorsApart | src/com/calculator/Calculator.java:308-496 | no button puts two operators side by side on a display that had none |
| Display.KeysTypeTheirCharacter | src/com/calculator/Calculator.java:546-578 | a digit, dot or operator key does what clicking that button does |
| Display.KeyButton | src/com/calculator/Calculator.java:515-582 | a key maps to a real button (a digit below ten, one of the five operators) or to none |
| Display.Calculator.constructor | src/com/calculator/Calculator.java:218 | `new JTextField()`: the display starts empty |
| Display.Calculator.ClearIfError | src/com/calculator/Calculator.java:80-84 | the display becomes `AfterClearIfError` of the old text |
| Display.Calculator.HandleOperator | src/com/calculator/Calculator.java:99-127 | the display becomes `AfterOperator` of the old text |
| Display.Calculator.PressDigit | src/com/calculator/Calculator.java:308-311 | "Error" is wiped and the digit appended |
| Display.Calculator.PressDoubleZero | src/com/calculator/Calculator.java:343-346 | "Error" is wiped and "00" appended |
| Display.Calculator.PressOperator | src/com/calculator/Calculator.java:419-438 | "Error" is wiped, then the operator rules apply |
| Display.Calculator.PressDecimal | src/com/calculator/Calculator.java:448-451 | "Error" is wiped and "." appended |
| Display.Calculator.PressEquals | src/com/calculator/Calculator.java:461-468 | the display becomes the result of `evalExpression` on it |
| Display.Calculator.PressDelete | src/com/calculator/Calculator.java:482-487 | the last character goes, unless the display is empty or shows "Error" |
| Display.Calculator.PressClear | src/com/calculator/Calculator.java:496 | the display becomes empty |
| Display.Calculator.Press | src/com/calculator/Calculator.java:308-496 | a click on any button leaves the text `AfterButton` gives |
| Display.Calculator.KeyPressed | src/com/calculator/Calculator.java:515-582 | a key clicks the button it stands for, tested in the listener's order; other keys leave the display unchanged |

## Left out

- Swing: the frame, the layout, the button styling and focus handling are not modelled. A button click is a method call, and a key press is a key code plus a key character.
- Display.Calculator.PressEquals: the catch around equals, which shows "Error" for any exception, is not modelled separately, because `evalExpression` already returns "Error" for every failure the model has.
- Display.KeyButton: it takes the key code and key character as plain parameters. The model does not reproduce how AWT fills them in for special keys.
- Evaluator.EvalExpression: it takes `String.valueOf(double)` for a non-integral or non-finite result as the parameter `valueOf`. The model does not reproduce the shortest-repr decimal rendering.
- Evaluator.EvalExpression: does not model the `long` range of the `(long)` cast. The model shows every integral value as a whole number. The program does so only inside the long range: beyond it `(long)` saturates, the comparison fails and `String.valueOf(double)` is shown (for example "1.0E19" for 10000000000000000000), and exactly 2^63 prints as 9223372036854775807.
- Evaluator.Parser.ParseExpression: the recursion depth is not bounded. `parseFactor` recurses once per unary sign and `parseExpression` once per `(`, so a deep enough input ends in a `StackOverflowError`, which neither `catch (Exception …)` handles (lines 613 and 465). The model returns a result at any depth. The keypad cannot type `(` or stacked signs, so only a direct call of `evalExpression` reaches this.
- Syntax.Eval: it computes exactly over the reals, not with IEEE-754 doubles. Rounding and signed zero are not modelled.
  - Every non-finite result is one value, NonFinite, and it absorbs further arithmetic. In IEEE arithmetic `1/(1/0)` is 0; in the model it stays non-finite.
  - A result such as 0.1+0.2, which is not integral either way, is rendered through `valueOf`.
- Literals.LiteralValue: it is the exact decimal value of the run. `Double.parseDouble` (line 712) rounds it to the nearest double, so "9007199254740993" reads as 9007199254740992, and a run too large for a double (400 digits, say) reads as Infinity.
- Outcomes.IntegerEvaluatesToItself: it holds for every integer in the model. The program agrees only for magnitudes up to 2^53: above that an integer no double represents is rounded ("9007199254740993" shows "9007199254740992"), and beyond the long range the cast rule of `Evaluator.EvalExpression` below applies.
- Syntax.Plus: the sum is exact. The program rounds it to a double and can overflow to Infinity; a non-finite operand gives NonFinite, as IEEE gives Infinity or NaN.
- Syntax.Minus: the difference is exact. The program rounds it to a double and can overflow to Infinity.
- Syntax.Times: the product is exact. The program rounds it, can overflow to Infinity or underflow to 0.
- Syntax.Quotient: the quotient is exact. A zero divisor gives NonFinite without the sign of Infinity or the NaN of 0/0, and a finite value divided by a non-finite one is NonFinite, where IEEE gives 0.
- Evaluator.Evaluate: it computes the exact value of the tree (see `Syntax.Eval`), not the double the program computes.
- Evaluator.IsIntegral: it ignores the range of the `(long)` cast: every finite value without a fractional part counts as integral, where the program's test `value == (long) value` fails beyond the long range.
- Evaluator.Format: it inherits the gap of `Evaluator.IsIntegral`, and it hands every non-integral or non-finite value to `valueOf`, which cannot tell NaN from Infinity or -Infinity because the model has one NonFinite value.
- Evaluator.EvalText: it inherits the gaps of `Evaluator.Evaluate` and `Evaluator.Format`: exact values, the long range of the cast, and `valueOf` for `String.valueOf(double)`.
- Grammar.Primary: it accepts a run of digits and dots exactly when `Double.parseDouble` accepts it: at most one dot and at least one digit. The scanner only ever hands `parseDouble` digits and dots, so the rest of its grammar (signs, exponents, `NaN`, hex) never arises.
- The exception messages ("Unexpected: ...", "Unexpected character: ...") are not modelled. Every failure is `Fail`.
- Display.Calculator.PressDelete: does not model the `text != null` test, because a display's text is never null.
