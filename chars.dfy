/** Character classes the calculator works with: the operator keys, the
    characters of a number literal and the whitespace removed before
    evaluation. */
module Chars {
  /** The operator keys, as in the `OPERATORS` constant. */
  const Operators: string := "+-*/%"

  /** First index of `c` in `s`, or -1 when `c` does not occur (String.indexOf). */
  function IndexOf(s: string, c: char): (r: int)
    ensures -1 <= r < |s|
    ensures r == -1 <==> c !in s
    ensures r >= 0 ==> s[r] == c && c !in s[..r]
  {
    if s == [] then -1
    else if s[0] == c then 0
    else
      var k := IndexOf(s[1..], c);
      if k == -1 then -1
      else
        assert s[..k + 1] == [s[0]] + s[1..][..k];
        k + 1
  }

  /** A character is an operator when `indexOf` finds it in `Operators`. */
  function IsOperator(c: char): (b: bool)
    ensures b <==> c == '+' || c == '-' || c == '*' || c == '/' || c == '%'
  {
    c in Operators
  }

  /** `isOperator` as written, through `indexOf`, is the same test. */
  lemma IsOperatorByIndex(c: char)
    ensures IsOperator(c) <==> IndexOf(Operators, c) != -1
  {
  }

  predicate IsDigit(c: char) {
    '0' <= c <= '9'
  }

  /** The characters the number scanner runs over. */
  predicate IsNumberChar(c: char) {
    IsDigit(c) || c == '.'
  }

  /** The characters of the regular-expression class `\s`. */
  predicate IsWhitespace(c: char) {
    c == ' ' || c == '\t' || c == '\n' || c == '\U{000B}' || c == '\U{000C}' || c == '\r'
  }

  /** `s` with every whitespace character removed, the rest kept in order. */
  function StripWhitespace(s: string): (r: string)
    ensures |r| <= |s|
    ensures forall k :: 0 <= k < |r| ==> !IsWhitespace(r[k])
    ensures forall c :: c in r <==> c in s && !IsWhitespace(c)
    ensures (forall k :: 0 <= k < |s| ==> !IsWhitespace(s[k])) ==> r == s
  {
    if s == [] then []
    else if IsWhitespace(s[0]) then StripWhitespace(s[1..])
    else [s[0]] + StripWhitespace(s[1..])
  }

  /** A single character: whitespace goes, anything else stays. */
  lemma StripOne(c: char)
    ensures StripWhitespace([c]) == if IsWhitespace(c) then [] else [c]
  {
  }

  /** Stripping works piece by piece, so the kept characters stay in their
      order and keep their number. */
  lemma {:induction false} StripConcat(a: string, b: string)
    ensures StripWhitespace(a + b) == StripWhitespace(a) + StripWhitespace(b)
    decreases |a|
  {
    if a == [] {
      assert a + b == b;
    } else {
      assert (a + b)[0] == a[0] && (a + b)[1..] == a[1..] + b;
      StripConcat(a[1..], b);
    }
  }
}
