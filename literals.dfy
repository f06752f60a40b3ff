/** Number literals as the scanner delivers them (runs of digits and dots),
    their acceptance by `Double.parseDouble`, their exact value, and the
    decimal rendering of integers used for integral results. */
module Literals {
  import opened Chars

  predicate AllDigits(s: string) {
    forall k :: 0 <= k < |s| ==> IsDigit(s[k])
  }

  predicate IsNumberRun(s: string) {
    forall k :: 0 <= k < |s| ==> IsNumberChar(s[k])
  }

  /** The number of dots in `s`. */
  function CountDots(s: string): nat {
    if s == [] then 0 else (if s[0] == '.' then 1 else 0) + CountDots(s[1..])
  }

  function HasDigit(s: string): bool {
    s != [] && (IsDigit(s[0]) || HasDigit(s[1..]))
  }

  /** A run of digits and dots that `Double.parseDouble` accepts: at most one
      dot and at least one digit, so "5." and ".5" but not "." or "1.2.3". */
  predicate ValidLiteral(run: string) {
    IsNumberRun(run) && CountDots(run) <= 1 && HasDigit(run)
  }

  lemma {:induction false} CountDotsAppend(a: string, b: string)
    ensures CountDots(a + b) == CountDots(a) + CountDots(b)
  {
    if a == [] {
      assert a + b == b;
    } else {
      assert (a + b)[1..] == a[1..] + b;
      CountDotsAppend(a[1..], b);
    }
  }

  lemma {:induction false} NoDots(s: string)
    requires CountDots(s) == 0
    ensures '.' !in s
  {
    if s != [] {
      NoDots(s[1..]);
      assert s == [s[0]] + s[1..];
    }
  }

  function DigitValue(c: char): (d: nat)
    requires IsDigit(c)
    ensures d < 10
  {
    c as int - '0' as int
  }

  /** The value of a string of decimal digits, most significant first. */
  function DigitsValue(ds: string): nat
    requires AllDigits(ds)
    decreases |ds|
  {
    if ds == [] then 0 else 10 * DigitsValue(ds[..|ds| - 1]) + DigitValue(ds[|ds| - 1])
  }

  function Pow10(n: nat): (p: nat)
    ensures p > 0
  {
    if n == 0 then 1 else 10 * Pow10(n - 1)
  }

  /** The digits before and after the dot of a valid literal. */
  lemma LiteralParts(run: string)
    requires ValidLiteral(run)
    ensures IndexOf(run, '.') == -1 ==> AllDigits(run)
    ensures IndexOf(run, '.') >= 0 ==>
              AllDigits(run[..IndexOf(run, '.')]) && AllDigits(run[IndexOf(run, '.') + 1..])
  {
    var d := IndexOf(run, '.');
    if d >= 0 {
      assert run == run[..d] + [run[d]] + run[d + 1..];
      CountDotsAppend(run[..d] + [run[d]], run[d + 1..]);
      CountDotsAppend(run[..d], [run[d]]);
      NoDots(run[d + 1..]);
      forall k | 0 <= k < d ensures IsDigit(run[..d][k]) {
        assert run[k] in run[..d];
      }
      forall k | d + 1 <= k < |run| ensures IsDigit(run[k]) {
        assert run[k] == run[d + 1..][k - d - 1];
      }
    }
  }

  /** The exact decimal value a valid literal denotes. */
  function LiteralValue(run: string): (x: real)
    requires ValidLiteral(run)
    ensures x >= 0.0
  {
    LiteralParts(run);
    var d := IndexOf(run, '.');
    if d == -1 then DigitsValue(run) as real
    else
      DigitsValue(run[..d]) as real
      + DigitsValue(run[d + 1..]) as real / Pow10(|run| - d - 1) as real
  }

  function DigitChar(d: nat): (c: char)
    requires d < 10
    ensures IsDigit(c) && DigitValue(c) == d
  {
    ('0' as int + d) as char
  }

  /** Decimal digits of `n` without leading zeros; reading them back gives `n`. */
  function NatToString(n: nat): (r: string)
    ensures |r| > 0 && AllDigits(r)
    ensures DigitsValue(r) == n
    ensures r[0] == '0' ==> n == 0
    decreases n
  {
    if n < 10 then [DigitChar(n)]
    else
      var prefix := NatToString(n / 10);
      var r := prefix + [DigitChar(n % 10)];
      assert r[..|r| - 1] == prefix;
      r
  }

  /** Decimal rendering of an integer, as `String.valueOf(long)` gives it. */
  function IntToString(n: int): (r: string)
    ensures n >= 0 ==> r == NatToString(n)
    ensures n < 0 ==> r == "-" + NatToString(-n)
  {
    if n < 0 then "-" + NatToString(-n) else NatToString(n)
  }

  /** Every digit string is a valid literal whose value is its digits' value. */
  lemma DigitsAreLiteral(ds: string)
    requires |ds| > 0 && AllDigits(ds)
    ensures ValidLiteral(ds)
    ensures LiteralValue(ds) == DigitsValue(ds) as real
  {
    assert IsDigit(ds[0]);
  }

  /** "5." and ".5" are accepted with values 5 and 0.5; "." and "1.2.3" are not. */
  lemma LiteralExamples()
    ensures ValidLiteral("5.") && LiteralValue("5.") == 5.0
    ensures ValidLiteral(".5") && LiteralValue(".5") == 0.5
    ensures !ValidLiteral(".")
    ensures !ValidLiteral("1.2.3")
  {
    assert IsDigit("5."[0]);
    assert IsDigit(".5"[1]);
    assert "."[0] == '.';
    assert "1.2.3"[1] == '.' && "1.2.3"[3] == '.';
    assert IndexOf("5.", '.') == 1;
    assert "5."[..1] == "5" && "5."[2..] == "";
    assert IndexOf(".5", '.') == 0;
    assert ".5"[..0] == "" && ".5"[1..] == "5";
    assert DigitsValue("5") == 5 by { assert "5"[..0] == ""; }
  }
}
