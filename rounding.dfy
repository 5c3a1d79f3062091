/**
 * PHP's `round(x, 2)` on the non-negative quantities of the challenge, stated
 * on whole hundredths of a kilometre so that no floating point is involved.
 * `round` rounds half away from zero, which on non-negative values is
 * floor(x + 1/2).
 */
module Rounding {
  /** The fixed conversion constant: 1500 steps count as one kilometre. */
  const StepsPerKm: nat := 1500

  /**
   * `round(pas / 1500, 2)` in hundredths, i.e. round(pas / 15). The result is
   * the integer nearest to pas / 15; an exact half cannot occur, because
   * 2 * pas + 15 is odd, so the distance is strictly less than one half.
   */
  function StepsToHundredths(pas: nat): (d: nat)
    ensures -15 < 30 * d - 2 * pas < 15
  {
    var q := (2 * pas + 15) / 30;
    assert 30 * q <= 2 * pas + 15 < 30 * q + 30;
    assert 30 * q - 2 * pas == 2 * (15 * q - pas);
    q
  }

  /** The contract of StepsToHundredths leaves exactly one possible value. */
  lemma StepsToHundredthsUnique(pas: nat, d: int)
    requires -15 < 30 * d - 2 * pas < 15
    ensures d == StepsToHundredths(pas)
  {
    var e := StepsToHundredths(pas);
    assert -30 < 30 * (d - e) < 30;
  }

  /** The feature test's conversion, 3000 steps to 2.00 km, and two further values, 2000 and 0 steps. */
  lemma StepsToHundredthsExamples()
    ensures StepsToHundredths(3000) == 200
    ensures StepsToHundredths(2000) == 133
    ensures StepsToHundredths(0) == 0
  {
  }

  /**
   * `count > 0 ? round(total / count, 2) : 0` on hundredths: the integer
   * nearest to total / count, a half rounded up, and 0 when there is nothing
   * to divide by.
   */
  function Average(total: nat, count: nat): (r: nat)
    ensures count == 0 ==> r == 0
    ensures count > 0 ==> -(count as int) <= 2 * total - 2 * count * r < count
  {
    if count == 0 then 0
    else
      var q := (2 * total + count) / (2 * count);
      assert 2 * count * q <= 2 * total + count < 2 * count * q + 2 * count;
      q
  }

  /** The contract of Average leaves exactly one possible value. */
  lemma AverageUnique(total: nat, count: nat, r: int)
    requires count > 0
    requires -(count as int) <= 2 * total - 2 * count * r < count
    ensures r == Average(total, count)
  {
    var e := Average(total, count);
    assert -2 * count < 2 * count * (r - e) < 2 * count;
    ProductAwayFromZero(2 * count, r - e);
  }

  lemma ProductAwayFromZero(c: nat, x: int)
    requires c > 0
    ensures x >= 1 ==> c * x >= c
    ensures x <= -1 ==> c * x <= -(c as int)
  {
    if x >= 1 {
      assert c * x == c * (x - 1) + c;
    } else if x <= -1 {
      assert c * x == c * (x + 1) - c;
    }
  }
}
