/** The integer arithmetic behind the backend's rates and averages:
    `Math.round` of a quotient, `Math.ceil` of a quotient, and one decimal
    place. Quotients are exact rationals here; the backend computes them in
    floating point. */
module Rounding {

  /** `Math.round(a / b)`: the integer nearest to a/b, halves rounded up. */
  function RoundDiv(a: int, b: int): (r: int)
    requires b > 0
    ensures 2 * b * r <= 2 * a + b < 2 * b * (r + 1)
  {
    (2 * a + b) / (2 * b)
  }

  /** The rounded quotient is the only integer within a half of a/b (ties
      going up). */
  lemma RoundDivUnique(a: int, b: int, r: int)
    requires b > 0 && 2 * b * r <= 2 * a + b < 2 * b * (r + 1)
    ensures r == RoundDiv(a, b)
  {
    var q := RoundDiv(a, b);
    if r < q {
      assert 2 * b * (r + 1) <= 2 * b * q by {
        MulMono(2 * b, r + 1, q);
      }
    } else if r > q {
      assert 2 * b * (q + 1) <= 2 * b * r by {
        MulMono(2 * b, q + 1, r);
      }
    }
  }

  lemma MulMono(c: int, x: int, y: int)
    requires c >= 0 && x <= y
    ensures c * x <= c * y
  {
  }

  /** Rounding is monotone in the numerator. */
  lemma RoundDivMono(a: int, a': int, b: int)
    requires b > 0 && a <= a'
    ensures RoundDiv(a, b) <= RoundDiv(a', b)
  {
    var r, r' := RoundDiv(a, b), RoundDiv(a', b);
    if r' < r {
      MulMono(2 * b, r' + 1, r);
    }
  }

  /** `total > 0 ? Math.round((part / total) * 100) : 0`. */
  function Percent(part: int, total: int): (r: int)
    ensures total <= 0 ==> r == 0
    ensures total > 0 ==> r == RoundDiv(100 * part, total)
    ensures 0 <= part <= total ==> 0 <= r <= 100
  {
    if total > 0 then
      RoundDivBetween(100 * part, 100, total);
      RoundDiv(100 * part, total)
    else 0
  }

  /** A numerator between 0 and `k` times the divisor rounds into 0..k. */
  lemma RoundDivBetween(a: int, k: int, b: int)
    requires b > 0 && k >= 0
    ensures 0 <= a <= k * b ==> 0 <= RoundDiv(a, b) <= k
  {
    if 0 <= a <= k * b {
      RoundDivMono(0, a, b);
      RoundDivMono(a, k * b, b);
      RoundDivExact(k, b);
    }
  }

  /** A whole multiple rounds to itself. */
  lemma RoundDivExact(k: int, b: int)
    requires b > 0
    ensures RoundDiv(k * b, b) == k && RoundDiv(0, b) == 0
  {
    RoundDivUnique(k * b, b, k);
    RoundDivUnique(0, b, 0);
  }

  /** Everything present rates 100, nothing present rates 0. */
  lemma PercentExtremes(total: int)
    requires total > 0
    ensures Percent(total, total) == 100 && Percent(0, total) == 0
  {
    RoundDivExact(100, total);
  }

  /** The mean of `count` values summing to `sum`, in tenths rounded half
      up: `Math.round((sum / count) * 10)`, shown divided by ten. */
  function MeanTenths(sum: int, count: int): (r: int)
    requires count > 0
    ensures 2 * count * r <= 20 * sum + count < 2 * count * (r + 1)
    ensures 0 <= sum <= 5 * count ==> 0 <= r <= 50
  {
    RoundDivBetween(10 * sum, 50, count);
    RoundDiv(10 * sum, count)
  }

  /** `Math.ceil(a / b)` for a positive divisor. */
  function CeilDiv(a: int, b: int): (r: int)
    requires b > 0
    ensures b * (r - 1) < a <= b * r
  {
    -((-a) / b)
  }

  /** `Math.ceil(a / b)` for a divisor of either sign. */
  function JsCeilDiv(a: int, b: int): (r: int)
    requires b != 0
    ensures b > 0 ==> b * (r - 1) < a <= b * r
    ensures b < 0 ==> b * r <= a < b * (r - 1)
  {
    if b > 0 then CeilDiv(a, b) else CeilDiv(-a, -b)
  }

  /** The sum of a list of integers. */
  function Sum(xs: seq<int>): int {
    if |xs| == 0 then 0 else Sum(xs[..|xs| - 1]) + xs[|xs| - 1]
  }

  /** A sum lies between the count times the least and the count times the
      greatest element. */
  lemma {:induction false} SumBounds(xs: seq<int>, lo: int, hi: int)
    requires forall i :: 0 <= i < |xs| ==> lo <= xs[i] <= hi
    ensures |xs| * lo <= Sum(xs) <= |xs| * hi
  {
    if |xs| > 0 {
      var init := xs[..|xs| - 1];
      assert forall i :: 0 <= i < |init| ==> init[i] == xs[i];
      SumBounds(init, lo, hi);
    }
  }
}
