/**
 *  The two pieces of JavaScript number semantics the engine relies on:
 *  the `%` operator, which truncates toward zero (so its result has the sign
 *  of the dividend), and the conversion of an integer to its decimal string,
 *  which `n + "..."` performs.
 */
module JsNumber {

  function Abs(x: int): nat { if x < 0 then -x else x }

  /** The quotient that goes with JavaScript's `%`: rounded toward zero. */
  function TruncQuot(a: int, b: int): int
    requires b > 0
  {
    if a >= 0 then a / b else -((-a) / b)
  }

  /** JavaScript's `a % b` for a positive divisor. */
  function JsRem(a: int, b: int): (r: int)
    requires b > 0
    ensures a == b * TruncQuot(a, b) + r
    ensures a >= 0 ==> 0 <= r < b
    ensures a < 0 ==> -b < r <= 0
  {
    if a >= 0 then a % b else -((-a) % b)
  }

  /** On a non-negative dividend JavaScript's `%` agrees with Dafny's. */
  lemma JsRemNonNegative(a: int, b: int)
    requires a >= 0 && b > 0
    ensures JsRem(a, b) == a % b
  {
  }

  function DigitChar(d: int): char
    requires 0 <= d < 10
  {
    "0123456789"[d]
  }

  function DigitValue(c: char): int
  {
    if '0' <= c <= '9' then c as int - '0' as int else 0
  }

  predicate IsDigits(s: string)
  {
    forall i :: 0 <= i < |s| ==> '0' <= s[i] <= '9'
  }

  /** Decimal digits of a natural number, most significant first, no leading zero. */
  function NatToString(n: nat): (s: string)
    ensures |s| > 0 && IsDigits(s)
    ensures s[0] == '0' ==> n == 0
  {
    if n < 10 then [DigitChar(n)] else NatToString(n / 10) + [DigitChar(n % 10)]
  }

  /** `String(n)` for an integer `n`: a minus sign exactly when negative, then the decimal digits of `|n|`. */
  function NumberToString(n: int): (s: string)
    ensures |s| > 0
    ensures (s[0] == '-') <==> n < 0
    ensures var d := if n < 0 then s[1..] else s;
      |d| > 0 && IsDigits(d) && DecimalValue(d) == Abs(n) && (d[0] == '0' ==> n == 0)
  {
    NatToStringRoundTrip(Abs(n));
    if n < 0 then "-" + NatToString(-n) else NatToString(n)
  }

  /** Reads a string of decimal digits back as a number. */
  function DecimalValue(s: string): nat
  {
    if s == [] then 0 else DecimalValue(s[..|s| - 1]) * 10 + DigitValue(s[|s| - 1]) as nat
  }

  lemma DigitRoundTrip(d: int)
    requires 0 <= d < 10
    ensures DigitValue(DigitChar(d)) == d
  {
  }

  /** Reading the decimal string of `n` gives `n` back, so NatToString is injective. */
  lemma {:induction false} NatToStringRoundTrip(n: nat)
    ensures DecimalValue(NatToString(n)) == n
  {
    var s := NatToString(n);
    if n < 10 {
      assert s[..|s| - 1] == [];
      DigitRoundTrip(n);
    } else {
      assert s[..|s| - 1] == NatToString(n / 10);
      NatToStringRoundTrip(n / 10);
      DigitRoundTrip(n % 10);
    }
  }

  lemma NatToStringInjective(m: nat, n: nat)
    requires NatToString(m) == NatToString(n)
    ensures m == n
  {
    NatToStringRoundTrip(m);
    NatToStringRoundTrip(n);
  }
}
