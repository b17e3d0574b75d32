/**
 * The percentages printed in the run summaries: a count as a whole-number
 * share of a total, truncated, and defined as 0 for a zero count so that a
 * zero total is never divided by.
 */
module Percentages {

  /**
   * `count * 100 / total` with unsigned truncating division, or 0 when
   * `count` is 0. Dividing a non-zero count by a zero total is undefined in
   * the C code, so a non-zero count needs a non-zero total.
   */
  function Percent(count: nat, total: nat): (r: nat)
    requires count > 0 ==> total > 0
    ensures count == 0 ==> r == 0
  {
    if count > 0 then count * 100 / total else 0
  }

  /** The percentage is the largest whole number whose share of `total` does not exceed `count`. */
  lemma PercentBounds(count: nat, total: nat)
    requires count > 0 && total > 0
    ensures Percent(count, total) * total <= count * 100 < (Percent(count, total) + 1) * total
  {
  }

  /** A share of a total is at most 100 percent. */
  lemma {:induction false} PercentAtMostHundred(count: nat, total: nat)
    requires count <= total && (count > 0 ==> total > 0)
    ensures Percent(count, total) <= 100
  {
    if count > 0 {
      var r := Percent(count, total);
      PercentBounds(count, total);
      assert r * total <= count * 100 <= 100 * total;
      CancelFactor(r, 100, total);
    }
  }

  /** Multiplying by the same positive factor keeps a strict order. */
  lemma {:induction false} ScaleStrict(x: nat, y: nat, t: nat)
    requires t > 0
    ensures x > y ==> x * t > y * t
  {
    if x > y {
      calc {
        x * t;
      >= (y + 1) * t;
      == y * t + t;
      >  y * t;
      }
    }
  }

  /** A product with the same positive factor keeps the order of the other factors. */
  lemma CancelFactor(x: nat, y: nat, t: nat)
    requires t > 0 && x * t <= y * t
    ensures x <= y
  {
    ScaleStrict(x, y, t);
  }

  /** The whole total is exactly 100 percent. */
  lemma {:induction false} PercentOfTotal(total: nat)
    requires total > 0
    ensures Percent(total, total) == 100
  {
    var r := Percent(total, total);
    PercentBounds(total, total);
    assert r * total <= 100 * total;
    CancelFactor(r, 100, total);
    assert 100 * total < (r + 1) * total;
    CancelFactor(100, r + 1, total);
  }

  /** A larger count never reports a smaller percentage of the same total. */
  lemma PercentMonotonic(a: nat, b: nat, total: nat)
    requires a <= b && (b > 0 ==> total > 0)
    ensures Percent(a, total) <= Percent(b, total)
  {
    if a > 0 {
      var ra, rb := Percent(a, total), Percent(b, total);
      PercentBounds(a, total);
      PercentBounds(b, total);
      assert ra * total <= a * 100 <= b * 100 < (rb + 1) * total;
      CancelFactor(ra, rb + 1, total);
    }
  }
}
