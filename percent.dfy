/** The percentage shown for a count: Math.round(100 * data / Total).
    For non-negative operands Math.round is round-half-up, which on integers
    is floor((2 * num + den) / (2 * den)) for the quotient num / den. */
module Percent {

  /** The integer nearest to num / den, halves rounded up. */
  function RoundHalfUp(num: nat, den: nat): (r: nat)
    requires den > 0
    ensures 2 * num - den < 2 * den * r <= 2 * num + den
  {
    var q := (2 * num + den) / (2 * den);
    assert 2 * num + den == 2 * den * q + (2 * num + den) % (2 * den);
    q
  }

  /** A product with a positive factor is positive only if the other factor is. */
  lemma PositiveFactor(a: int, z: int)
    requires a > 0 && a * z > 0
    ensures z > 0
  {
  }

  /** The rounding interval fixes the result: no other integer lies in it. */
  lemma RoundHalfUpUnique(num: nat, den: nat, r: int)
    requires den > 0
    requires 2 * num - den < 2 * den * r <= 2 * num + den
    ensures r == RoundHalfUp(num, den)
  {
    var q := RoundHalfUp(num, den);
    var w := 2 * den;
    // w * r and w * q both lie in the half-open interval (2*num - den, 2*num + den]
    assert w * (q + 1 - r) == w * q + w - w * r;
    PositiveFactor(w, q + 1 - r);
    assert w * (r + 1 - q) == w * r + w - w * q;
    PositiveFactor(w, r + 1 - q);
  }

  /** The percentage of `total` that `data` represents, rounded as the map does. */
  function Percentage(data: nat, total: nat): (p: nat)
    requires total > 0
    ensures 200 * data - total < 2 * total * p <= 200 * data + total
  {
    RoundHalfUp(100 * data, total)
  }

  /** Zero data is zero percent; the whole total is one hundred percent;
      a share of the total never exceeds one hundred percent, and a count of
      at least the total is at least one hundred percent. */
  lemma PercentageBounds(data: nat, total: nat)
    requires total > 0
    ensures data == 0 ==> Percentage(data, total) == 0
    ensures data == total ==> Percentage(data, total) == 100
    ensures data <= total ==> Percentage(data, total) <= 100
    ensures data >= total ==> Percentage(data, total) >= 100
  {
    if data == 0 {
      RoundHalfUpUnique(0, total, 0);
    }
    if data == total {
      RoundHalfUpUnique(100 * total, total, 100);
    }
    if data <= total {
      PercentageAtMostFull(data, total);
    }
    if data >= total {
      PercentageAtLeastFull(data, total);
    }
  }

  /** A count of at most the total is at most one hundred percent. */
  lemma PercentageAtMostFull(data: nat, total: nat)
    requires 0 < total && data <= total
    ensures Percentage(data, total) <= 100
  {
    RoundHalfUpUnique(100 * total, total, 100);
    PercentageMonotone(data, total, total);
  }

  /** A count of at least the total is at least one hundred percent. */
  lemma PercentageAtLeastFull(data: nat, total: nat)
    requires 0 < total <= data
    ensures Percentage(data, total) >= 100
  {
    RoundHalfUpUnique(100 * total, total, 100);
    PercentageMonotone(total, data, total);
  }

  /** More data never gives a smaller percentage. */
  lemma PercentageMonotone(d1: nat, d2: nat, total: nat)
    requires total > 0 && d1 <= d2
    ensures Percentage(d1, total) <= Percentage(d2, total)
  {
    var p1, p2 := Percentage(d1, total), Percentage(d2, total);
    var w := 2 * total;
    // w * p1 <= 200 * d1 + total <= 200 * d2 + total < w * p2 + w
    assert w * (p2 + 1 - p1) == w * p2 + w - w * p1;
    PositiveFactor(w, p2 + 1 - p1);
  }
}
