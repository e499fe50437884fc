/** The digit-density estimator dt_ratio: the share of a line's characters that are digits. */
module DigitRatio {
  import opened PyText

  /** The number of digit characters in s (the generator sum of dt_ratio) */
  function DigitCount(s: string): (n: nat)
    ensures n <= |s|
  {
    if s == [] then 0 else (if IsDigit(s[0]) then 1 else 0) + DigitCount(s[1..])
  }

  /** No digit and only digits are the two extremes of the count. */
  lemma {:induction false} DigitCountExtremes(s: string)
    ensures DigitCount(s) == |s| <==> AllDigits(s)
    ensures DigitCount(s) == 0 <==> forall i :: 0 <= i < |s| ==> !IsDigit(s[i])
  {
    if s != [] {
      DigitCountExtremes(s[1..]);
      assert forall i :: 1 <= i < |s| ==> s[i] == s[1..][i - 1];
    }
  }

  /** dt_ratio(s): digits over length, and 0 for the empty line */
  function DtRatio(s: string): (r: real)
    ensures 0.0 <= r <= 1.0
  {
    if |s| == 0 then 0.0
    else
      var d, t := DigitCount(s), |s|;
      ShareBounds(d as real, t as real);
      d as real / t as real
  }

  /** The ratio is 0 exactly when no character is a digit, 1 exactly when every one is,
      and at least one half exactly when digits make up at least half the line. */
  lemma {:induction false} DtRatioShare(s: string)
    ensures DtRatio(s) == 0.0 <==> DigitCount(s) == 0
    ensures DtRatio(s) == 1.0 <==> s != [] && DigitCount(s) == |s|
    ensures DtRatio(s) >= 0.5 <==> s != [] && 2 * DigitCount(s) >= |s|
  {
    if s != [] {
      ShareBounds(DigitCount(s) as real, |s| as real);
    }
  }

  /** The real-number facts behind DtRatio, for a count d out of t > 0 */
  lemma {:induction false} ShareBounds(d: real, t: real)
    requires 0.0 <= d <= t && t > 0.0
    ensures 0.0 <= d / t <= 1.0
    ensures d / t == 0.0 <==> d == 0.0
    ensures d / t == 1.0 <==> d == t
    ensures d / t >= 0.5 <==> 2.0 * d >= t
  {
    QuotientOrder(d, t, 0.0);
    QuotientOrder(d, t, 0.5);
    QuotientOrder(d, t, 1.0);
    QuotientEq(d, t, 0.0);
    QuotientEq(d, t, 1.0);
  }

  /** Comparing a quotient with c is comparing the dividend with c times the divisor. */
  lemma {:induction false} QuotientOrder(d: real, t: real, c: real)
    requires t > 0.0
    ensures d / t < c <==> d < c * t
  {
    var q := d / t;
    assert q * t == d;
    assert (c - q) * t == c * t - d;
  }

  lemma {:induction false} QuotientEq(d: real, t: real, c: real)
    requires t > 0.0
    ensures d / t == c <==> d == c * t
  {
    var q := d / t;
    assert q * t == d;
    assert (c - q) * t == c * t - d;
  }
}
