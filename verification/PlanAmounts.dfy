/** Which money amounts the plan evaluator accepts: those that times ten thousand give a whole number, or nearly one. */
module PlanAmounts {
  import opened Doubles

  predicate ValidMoney(x: real) {
    var p := Nearest(x * 10000.0);
    0.0 <= x <= 1000000000.0 && AbsReal(p - RoundHalfUp(p) as real) < Nearest(0.0000001)
  }

  /** The largest number of ten-thousandths below which consecutive doubles lie closer together than the tolerance. */
  const FINE := 0x2000_0000

  lemma ToleranceIsNear()
    ensures 0.00000009 < Nearest(0.0000001) < 0.00000011
  {
    hide NearestPositive;
    NearestIsNear(0.0000001);
  }

  // ---------------------------------------------------------------- the product with ten thousand

  function Steps(k: int): real { Nearest(FromGrid(k) * 10000.0) }

  lemma StepsAreNear(k: int)
    requires 0 < k <= 1_000_000_000_0000
    ensures k as real - k as real / TWO_53 <= FromGrid(k) * 10000.0 <= k as real + k as real / TWO_53
    ensures Within(Steps(k), k as real, 0.01)
  {
    hide Nearest;
    NearestIsNear(k as real / 10000.0);
    NearestIsNear(FromGrid(k) * 10000.0);
  }

  lemma AmountInRange(k: int)
    requires 0 <= k <= 1_000_000_000_0000
    ensures 0.0 <= FromGrid(k) <= 1000000000.0
  {
    hide Nearest;
    NearestIsNear(k as real / 10000.0);
    NearestIsMonotone(k as real / 10000.0, 1000000000.0);
    SixteenthsAreExact(1_000_000_000_0000);
  }

  /** An amount is accepted when its computed number of steps is within the tolerance of the true one. */
  lemma ValidExactlyWithin(k: int)
    requires 0 < k <= 1_000_000_000_0000
    ensures ValidMoney(FromGrid(k)) <==> AbsReal(Steps(k) - k as real) < Nearest(0.0000001)
  {
    hide FromGrid, Nearest;
    AmountInRange(k);
    StepsAreNear(k);
    assert RoundHalfUp(Steps(k)) == k;
  }

  lemma BelowPowerIsClose(x: real)
    requires 0.0 < x < TWO_53
    ensures Within(NearestPositive(x), x, 0.5)
  {
    NearestPositiveIsNear(x);
    if x >= TWO_52 { BetweenPowers(x); }
  }

  /** Below FINE the last place of a double is at most 2^-24. */
  lemma FineIsClose(x: real)
    requires 0.0 < x < FINE as real
    ensures Within(NearestPositive(x) * 16777216.0, x * 16777216.0, 0.5)
  {
    hide NearestPositive;
    LargePowers();
    ScaledByPower(x, 24, 16777216.0, x * 16777216.0);
    BelowPowerIsClose(x * 16777216.0);
  }

  lemma {:induction false} LargeIsWhole(x: real)
    requires x >= TWO_52
    ensures NearestPositive(x) == NearestPositive(x).Floor as real
    decreases x.Floor
  {
    if x >= TWO_53 {
      LargeIsWhole(x / 2.0);
      assert NearestPositive(x) == (2 * NearestPositive(x / 2.0).Floor) as real;
    }
  }

  /** From FINE on the last place of a double is at least 2^-23. */
  lemma CoarseIsApart(x: real, k: int)
    requires x >= FINE as real
    ensures NearestPositive(x) == k as real || AbsReal(NearestPositive(x) - k as real) * 8388608.0 >= 1.0
  {
    hide NearestPositive;
    LargePowers();
    ScaledByPower(x, 23, 8388608.0, x * 8388608.0);
    LargeIsWhole(x * 8388608.0);
    WholesApart(NearestPositive(x), k, NearestPositive(x * 8388608.0).Floor);
  }

  lemma WholesApart(x: real, k: int, whole: int)
    requires x * 8388608.0 == whole as real
    ensures x == k as real || AbsReal(x - k as real) * 8388608.0 >= 1.0
  {
    var apart := whole - k * 8388608;
    assert (x - k as real) * 8388608.0 == apart as real;
    assert apart == 0 || AbsReal(apart as real) >= 1.0;
  }

  // ---------------------------------------------------------------- which amounts are accepted

  lemma ZeroAccepted()
    ensures ValidMoney(FromGrid(0)) && FromGrid(0) == 0.0
  {
    hide NearestPositive;
    ToleranceIsNear();
  }

  lemma FineAccepted(k: int)
    requires 0 < k < FINE
    ensures AbsReal(Steps(k) - k as real) < Nearest(0.0000001)
  {
    hide NearestPositive, FromGrid;
    ToleranceIsNear();
    StepsAreNear(k);
    FineIsClose(FromGrid(k) * 10000.0);
  }

  lemma CoarseAccepted(k: int)
    requires FINE < k <= 1_000_000_000_0000
    ensures AbsReal(Steps(k) - k as real) < Nearest(0.0000001) ==> Steps(k) == k as real
  {
    hide NearestPositive, FromGrid;
    ToleranceIsNear();
    StepsAreNear(k);
    CoarseIsApart(FromGrid(k) * 10000.0, k);
  }

  lemma FineDouble()
    ensures FromGrid(FINE) == 7378697629483821.0 / 137438953472.0
  {
    LargePowers();
    hide NearestPositive, Power;
    var x := FINE as real / 10000.0;
    ScaledByPower(x, 37, 137438953472.0, x * 137438953472.0);
    BetweenPowers(x * 137438953472.0);
  }

  lemma FineItself()
    ensures Steps(FINE) == FINE as real
  {
    LargePowers();
    FineDouble();
    hide NearestPositive, FromGrid, Power;
    var y := FromGrid(FINE) * 10000.0;
    ScaledByPower(y, 23, 8388608.0, y * 8388608.0);
    BetweenPowers(y * 8388608.0);
  }

  /**
   An amount with at most four decimals is accepted if it is below 53687.0912, and beyond exactly when the computed
   product with ten thousand is the whole number it should be: the tolerance makes no difference there.
   */
  lemma GridAmountAccepted(k: int)
    requires 0 <= k <= 1_000_000_000_0000
    ensures ValidMoney(FromGrid(k)) <==> k < FINE || Steps(k) == k as real
  {
    hide NearestPositive, FromGrid, Steps, ValidMoney;
    ToleranceIsNear();
    if k == 0 {
      ZeroAccepted();
    } else {
      ValidExactlyWithin(k);
      if k < FINE {
        FineAccepted(k);
      } else if k == FINE {
        FineItself();
      } else {
        CoarseAccepted(k);
      }
    }
  }

  /** Whole amounts, and all in whole sixteenths, are accepted. */
  lemma SixteenthsAccepted(k: int)
    requires 0 <= k <= 1_000_000_000_0000 && k % 625 == 0
    ensures ValidMoney(FromGrid(k))
  {
    hide NearestPositive, FromGrid, ValidMoney;
    GridAmountAccepted(k);
    SixteenthsAreExact(k);
    if k > 0 { WholeIsExact(k as real); }
  }

  lemma RefusedDouble()
    ensures FromGrid(65536_0400) == 4503602376149565.0 / 68719476736.0
  {
    LargePowers();
    hide NearestPositive, Power;
    var x := 65536.04;
    ScaledByPower(x, 36, 68719476736.0, x * 68719476736.0);
    BetweenPowers(x * 68719476736.0);
  }

  lemma StepsBelow()
    ensures Steps(65536_0400) < 65536_0400.0
  {
    LargePowers();
    RefusedDouble();
    hide NearestPositive, FromGrid, Power;
    var y := FromGrid(65536_0400) * 10000.0;
    ScaledByPower(y, 23, 8388608.0, y * 8388608.0);
    BetweenPowers(y * 8388608.0);
  }

  /** The amount 65536.04 is refused. */
  lemma CentsRefused()
    ensures !ValidMoney(FromGrid(65536_0400))
  {
    hide ValidMoney;
    StepsBelow();
    GridAmountAccepted(65536_0400);
  }
}
