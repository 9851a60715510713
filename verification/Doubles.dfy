/**
 Double-precision arithmetic as the plan evaluator meets it: every operation gives the number with a 53-bit significand
 nearest to the exact result, ties to the even one. Overflow and subnormal numbers are out of reach of its amounts.
 */
module Doubles {

  const TWO_52 := 4503599627370496.0
  const TWO_53 := 9007199254740992.0
  const EPSILON := 1.0 / TWO_52

  /** The nearest whole number, the even one of two. */
  function HalfEven(x: real): int {
    var down := x.Floor;
    var rest := x - down as real;
    if rest < 0.5 || (rest == 0.5 && down % 2 == 0) then down else down + 1
  }

  /** Scales by powers of two until the whole part fills the significand, and rounds there. */
  function NearestPositive(x: real): real
    requires x > 0.0
    decreases if x >= TWO_53 then 1 else 0, if x >= TWO_53 then x.Floor else (TWO_53 / x).Floor
  {
    if x >= TWO_53 then 2.0 * NearestPositive(x / 2.0)
    else if x < TWO_52 then NearestPositive(2.0 * x) / 2.0
    else HalfEven(x) as real
  }

  /** The double nearest to a number. */
  function Nearest(x: real): real {
    if x == 0.0 then 0.0 else if x > 0.0 then NearestPositive(x) else -NearestPositive(-x)
  }

  function Ceiling(x: real): int { -((-x).Floor) }

  /** Math.round: halves upwards. */
  function RoundHalfUp(x: real): int { (x + 0.5).Floor }

  /** The double that stands for a whole number of ten-thousandths. */
  function FromGrid(k: int): real { Nearest(k as real / 10000.0) }

  /** The ten-thousandths a value is rounded to: the source multiplies the value plus a machine epsilon and rounds. */
  function GridOf(x: real): int { RoundHalfUp(Nearest(Nearest(x + EPSILON) * 10000.0)) }

  /** The computed quotient of two amounts. */
  function Quotient(a: int, b: int): real
    requires b > 0
  {
    PositiveGrid(b);
    Nearest(FromGrid(a) / FromGrid(b))
  }

  // ---------------------------------------------------------------- rounding error

  lemma HalfEvenIsNear(x: real)
    ensures x - 0.5 <= HalfEven(x) as real <= x + 0.5
  {
  }

  lemma {:induction false} NearestPositiveIsNear(x: real)
    requires x > 0.0
    ensures x - x / TWO_53 <= NearestPositive(x) <= x + x / TWO_53
    decreases if x >= TWO_53 then 1 else 0, if x >= TWO_53 then x.Floor else (TWO_53 / x).Floor
  {
    if x >= TWO_53 {
      NearestPositiveIsNear(x / 2.0);
    } else if x < TWO_52 {
      NearestPositiveIsNear(2.0 * x);
    } else {
      HalfEvenIsNear(x);
    }
  }

  lemma PositiveGrid(k: int)
    requires k > 0
    ensures FromGrid(k) > 0.0
  {
    NearestPositiveIsNear(k as real / 10000.0);
  }

  /** The relative error of one operation is at most 2^-53. */
  lemma NearestIsNear(x: real)
    ensures x >= 0.0 ==> x - x / TWO_53 <= Nearest(x) <= x + x / TWO_53
    ensures x <= 0.0 ==> x + x / TWO_53 <= Nearest(x) <= x - x / TWO_53
  {
    hide NearestPositive;
    if x > 0.0 { NearestPositiveIsNear(x); }
    if x < 0.0 { NearestPositiveIsNear(-x); }
  }

  lemma DivideBelow(x: real, y: real, c: real)
    requires y > 0.0
    ensures x <= c * y ==> x / y <= c
    ensures x >= c * y ==> x / y >= c
  {
  }

  lemma ScaleOrder(r: real, x: real, y: real)
    requires r >= 0.0 && x <= y
    ensures r * x <= r * y
  {
  }

  /** If x and r * y are both close to e, the quotient of x by y is close to r. */
  lemma QuotientOfNear(x: real, y: real, r: real, e: real)
    requires y > 0.0 && e >= 0.0
    requires e - e / TWO_53 <= x <= e + e / TWO_53 && e - e / TWO_53 <= r * y <= e + e / TWO_53
    ensures r - r * 2.5 / TWO_53 <= x / y <= r + r * 2.5 / TWO_53
  {
    var ry := r * y;
    assert x <= ry + ry * 2.5 / TWO_53 && x >= ry - ry * 2.5 / TWO_53;
    DivideBelow(x, y, r + r * 2.5 / TWO_53);
    DivideBelow(x, y, r - r * 2.5 / TWO_53);
  }

  lemma OneMoreRounding(r: real, q: real)
    requires r >= 0.0 && r - r * 2.5 / TWO_53 <= q <= r + r * 2.5 / TWO_53
    ensures r - r * 4.0 / TWO_53 <= Nearest(q) <= r + r * 4.0 / TWO_53
  {
    NearestIsNear(q);
    hide Nearest;
  }

  /** If y is close to e / r, r * y is close to e. */
  lemma ScaledNear(r: real, y: real, exact: real, e: real)
    requires r >= 0.0 && exact - exact / TWO_53 <= y <= exact + exact / TWO_53 && r * exact == e
    ensures e - e / TWO_53 <= r * y <= e + e / TWO_53
  {
    ScaleOrder(r, exact - exact / TWO_53, y);
    ScaleOrder(r, y, exact + exact / TWO_53);
    assert r * (exact / TWO_53) == e / TWO_53;
  }

  lemma RatioOfGrid(a: real, b: real)
    requires b > 0.0
    ensures (a / b) * (b / 10000.0) == a / 10000.0
  {
  }

  /** The computed quotient of two amounts is within a relative 2^-51 of the exact one. */
  lemma QuotientIsNear(a: nat, b: int)
    requires b > 0
    ensures var r := a as real / b as real;
      r - r * 4.0 / TWO_53 <= Quotient(a, b) <= r + r * 4.0 / TWO_53
  {
    hide Nearest;
    var (x, y, r) := (FromGrid(a), FromGrid(b), a as real / b as real);
    var (exactX, exactY) := (a as real / 10000.0, b as real / 10000.0);
    PositiveGrid(b);
    NearestIsNear(exactX);
    NearestIsNear(exactY);
    RatioOfGrid(a as real, b as real);
    ScaledNear(r, y, exactY, exactX);
    QuotientOfNear(x, y, r, exactX);
    OneMoreRounding(r, x / y);
  }

  // ---------------------------------------------------------------- order and exact values

  lemma DoublingDecreases(x: real)
    requires 0.0 < x < TWO_52
    ensures (TWO_53 / (2.0 * x)).Floor < (TWO_53 / x).Floor
  {
    var t := TWO_53 / x;
    assert TWO_53 / (2.0 * x) == t / 2.0;
    DivideBelow(TWO_53, x, 2.0);
    assert (t / 2.0).Floor as real <= t / 2.0 <= t - 1.0;
  }

  lemma {:induction false} AtMostPower(x: real)
    requires 0.0 < x <= TWO_52
    ensures NearestPositive(x) <= TWO_52
    decreases (TWO_53 / x).Floor
  {
    if x < TWO_52 / 2.0 {
      DoublingDecreases(x);
      AtMostPower(2.0 * x);
    }
  }

  lemma {:induction false} AtLeastPower(x: real)
    requires x >= TWO_53
    ensures NearestPositive(x) >= TWO_53
    decreases x.Floor
  {
    if x >= 2.0 * TWO_53 {
      AtLeastPower(x / 2.0);
    }
  }

  lemma HalfEvenIsMonotone(x: real, y: real)
    requires x <= y
    ensures HalfEven(x) <= HalfEven(y)
  {
  }

  lemma BetweenPowers(x: real)
    requires TWO_52 <= x < TWO_53
    ensures NearestPositive(x) == HalfEven(x) as real && TWO_52 <= NearestPositive(x) <= TWO_53
  {
    HalfEvenIsMonotone(TWO_52, x);
    HalfEvenIsMonotone(x, TWO_53);
  }

  /** Numbers that are not rounded at the same scale are separated by a power of two. */
  lemma MonotoneAcrossScales(x: real, y: real)
    requires 0.0 < x <= y && x < TWO_53 && y >= TWO_52
    ensures NearestPositive(x) <= NearestPositive(y)
  {
    if x < TWO_52 { AtMostPower(x); } else { BetweenPowers(x); }
    if y >= TWO_53 { AtLeastPower(y); } else { BetweenPowers(y); }
    HalfEvenIsMonotone(x, y);
    hide NearestPositive, HalfEven;
  }

  lemma {:induction false} NearestPositiveIsMonotone(x: real, y: real)
    requires 0.0 < x <= y
    ensures NearestPositive(x) <= NearestPositive(y)
    decreases if y >= TWO_53 then 1 else 0, if y >= TWO_53 then y.Floor else (TWO_53 / x).Floor
  {
    if x >= TWO_53 {
      NearestPositiveIsMonotone(x / 2.0, y / 2.0);
    } else if y < TWO_52 {
      DoublingDecreases(x);
      NearestPositiveIsMonotone(2.0 * x, 2.0 * y);
    } else {
      MonotoneAcrossScales(x, y);
    }
  }

  /** Rounding keeps the order of numbers. */
  lemma NearestIsMonotone(x: real, y: real)
    requires x <= y
    ensures Nearest(x) <= Nearest(y)
  {
    hide NearestPositive;
    if x > 0.0 { NearestPositiveIsMonotone(x, y); }
    if y < 0.0 { NearestPositiveIsMonotone(-y, -x); }
    NearestIsNear(x);
    NearestIsNear(y);
  }

  lemma {:induction false} WholeIsExact(n: real)
    requires 0.0 < n < TWO_53 && n == n.Floor as real
    ensures NearestPositive(n) == n
    decreases (TWO_53 / n).Floor
  {
    if n < TWO_52 {
      assert 2.0 * n == (2 * n.Floor) as real;
      DoublingDecreases(n);
      WholeIsExact(2.0 * n);
    }
  }

  /** Half the distance from a double to the next larger one. */
  function HalfUlp(x: real): real
    requires x > 0.0
    decreases if x >= TWO_53 then 1 else 0, if x >= TWO_53 then x.Floor else (TWO_53 / x).Floor
  {
    if x >= TWO_53 then 2.0 * HalfUlp(x / 2.0) else if x < TWO_52 then HalfUlp(2.0 * x) / 2.0 else 0.5
  }

  /** x times the k-th power of two. */
  function TimesPower(x: real, k: nat): real
    decreases k
  {
    if k == 0 then x else TimesPower(2.0 * x, k - 1)
  }

  lemma {:induction false} TimesPowerGrows(x: real, k: nat)
    requires x > 0.0
    ensures TimesPower(x, k) >= x && (k > 0 ==> TimesPower(x, k) >= 2.0 * x)
    decreases k
  {
    if k > 0 { TimesPowerGrows(2.0 * x, k - 1); }
  }

  function Power(k: nat): nat { if k == 0 then 1 else 2 * Power(k - 1) }

  lemma {:induction false} TimesPowerIsProduct(x: real, k: nat)
    ensures TimesPower(x, k) == x * Power(k) as real
    decreases k
  {
    if k > 0 {
      TimesPowerIsProduct(2.0 * x, k - 1);
      assert Power(k) as real == 2.0 * Power(k - 1) as real;
    }
  }

  lemma {:induction false} PowerOfSum(j: nat, k: nat)
    ensures Power(j + k) == Power(j) * Power(k)
  {
    if j > 0 {
      PowerOfSum(j - 1, k);
      assert Power(j + k) == 2 * Power(j - 1) * Power(k);
    }
  }

  lemma LargePowers()
    ensures Power(23) == 8388608 && Power(24) == 16777216 && Power(36) == 68719476736 && Power(37) == 137438953472
    ensures Power(44) == 17592186044416 && Power(53) == 9007199254740992
  {
    assert Power(1) == 2 && Power(5) == 32 && Power(7) == 128 && Power(9) == 512;
    PowerOfSum(9, 9);
    PowerOfSum(5, 18);
    PowerOfSum(1, 23);
    PowerOfSum(18, 18);
    PowerOfSum(1, 36);
    PowerOfSum(7, 37);
    PowerOfSum(9, 44);
  }

  lemma ScaledOnce(x: real)
    requires x > 0.0
    ensures NearestPositive(x) * 2.0 == NearestPositive(2.0 * x) && HalfUlp(x) * 2.0 == HalfUlp(2.0 * x)
  {
  }

  /** Multiplying by a power of two changes neither the rounding nor the distances, only their scale. */
  lemma {:induction false} Scaled(x: real, k: nat)
    requires x > 0.0
    ensures TimesPower(x, k) > 0.0
    ensures TimesPower(NearestPositive(x), k) == NearestPositive(TimesPower(x, k))
    ensures TimesPower(HalfUlp(x), k) == HalfUlp(TimesPower(x, k))
    decreases k
  {
    hide NearestPositive, HalfUlp;
    TimesPowerGrows(x, k);
    if k > 0 {
      ScaledOnce(x);
      Scaled(2.0 * x, k - 1);
    }
  }

  /** The same in terms of the power. */
  lemma ScaledByPower(x: real, j: nat, power: real, z: real)
    requires x > 0.0 && power == Power(j) as real && z == x * power && z > 0.0
    ensures NearestPositive(x) * power == NearestPositive(z) && HalfUlp(x) * power == HalfUlp(z)
  {
    hide NearestPositive, HalfUlp, Power, TimesPower;
    Scaled(x, j);
    TimesPowerIsProduct(x, j);
    TimesPowerIsProduct(NearestPositive(x), j);
    TimesPowerIsProduct(HalfUlp(x), j);
  }

  // ---------------------------------------------------------------- where rounding passes a whole number

  /** A double whose last significant bit is zero: an exact tie goes to it. */
  predicate IsEven(x: real)
    requires x > 0.0
    decreases if x >= TWO_53 then 1 else 0, if x >= TWO_53 then x.Floor else (TWO_53 / x).Floor
  {
    if x >= TWO_53 then IsEven(x / 2.0)
    else if x < TWO_52 then IsEven(2.0 * x)
    else x == x.Floor as real && x.Floor % 2 == 0
  }

  lemma {:induction false} HalfUlpFits(n: real)
    requires 0.0 < n < TWO_52 && IsEven(n)
    ensures 0.0 < HalfUlp(n) && n + HalfUlp(n) < TWO_52
    decreases (TWO_53 / n).Floor
  {
    if n < TWO_52 / 2.0 {
      DoublingDecreases(n);
      HalfUlpFits(2.0 * n);
    } else {
      var m := (2.0 * n).Floor;
      assert IsEven(2.0 * n) && 2.0 * n == m as real && m % 2 == 0;
      assert m < 9007199254740992;
    }
  }

  lemma {:induction false} WholeIsEven(n: real)
    requires 0.0 < n < TWO_52 && n == n.Floor as real
    ensures IsEven(n)
    decreases (TWO_53 / n).Floor
  {
    var m := 2 * n.Floor;
    assert 2.0 * n == m as real && (2.0 * n).Floor == m;
    if n < TWO_52 / 2.0 {
      DoublingDecreases(n);
      WholeIsEven(2.0 * n);
    }
    assert IsEven(2.0 * n);
  }

  lemma {:induction false} RoundsAboveEven(x: real, n: real)
    requires 0.0 < n <= x && n < TWO_53 && IsEven(n)
    ensures NearestPositive(x) > n <==> x > n + HalfUlp(n)
    decreases (TWO_53 / n).Floor
  {
    if n >= TWO_52 {
      RoundsAboveWithin(x, n);
    } else if x < TWO_52 {
      DoublingDecreases(n);
      RoundsAboveEven(2.0 * x, 2.0 * n);
    } else {
      HalfUlpFits(n);
      MonotoneAcrossScales(TWO_52, x);
    }
  }

  lemma RoundsAboveWithin(x: real, n: real)
    requires TWO_52 <= n < TWO_53 && n <= x && IsEven(n)
    ensures NearestPositive(x) > n <==> x > n + 0.5
  {
    var m := n.Floor;
    if x >= TWO_53 {
      AtLeastPower(x);
      assert m <= 9007199254740990;
    } else if x <= n + 0.5 {
      assert HalfEven(x) == m;
    } else {
      assert HalfEven(x) > m;
    }
  }

  // ---------------------------------------------------------------- rounding up a quotient

  /**
   The volume computed for costs and unit contribution in ten-thousandths: the source rounds up the computed
   quotient.
   */
  function CeilingOfQuotient(a: int, b: int): int
    requires b > 0
  {
    Ceiling(Quotient(a, b))
  }

  lemma CeilingBetween(x: real, n: int)
    ensures Ceiling(x) >= n <==> x > n as real - 1.0
    ensures Ceiling(x) <= n <==> x <= n as real
  {
  }

  lemma QuotientTimes(a: nat, b: int)
    requires a < 0x8_0000_0000_0000 && b > 0
    ensures a as real - 1.0 < Quotient(a, b) * b as real < a as real + 1.0
  {
    hide Quotient;
    QuotientIsNear(a, b);
    var (r, y, q) := (a as real / b as real, b as real, Quotient(a, b));
    var slack := r * 4.0 / TWO_53;
    assert r * y == a as real;
    assert slack * y == a as real * 4.0 / TWO_53 < 1.0;
    ScaleOrder(y, r - slack, q);
    ScaleOrder(y, q, r + slack);
  }

  lemma CompareTimes(q: real, n: int, b: int)
    requires b > 0
    ensures q <= n as real ==> q * b as real <= (n * b) as real
    ensures q >= n as real ==> q * b as real >= (n * b) as real
  {
    var y := b as real;
    assert (n * b) as real == n as real * y;
    if q <= n as real { ScaleOrder(y, q, n as real); }
    if q >= n as real { ScaleOrder(y, n as real, q); }
  }

  /**
   Rounding the computed quotient up gives the least whole number that covers, or one more when the division is
   exact.
   */
  lemma CeilingIsLeastOrNext(a: nat, b: int, least: int)
    requires a < 0x8_0000_0000_0000 && b > 0 && (least - 1) * b < a <= least * b
    ensures least <= CeilingOfQuotient(a, b) <= least + 1
    ensures CeilingOfQuotient(a, b) == least + 1 ==> a == least * b
  {
    hide Quotient, Ceiling;
    QuotientTimes(a, b);
    var q := Quotient(a, b);
    CeilingBetween(q, least);
    CeilingBetween(q, least + 1);
    CompareTimes(q, least - 1, b);
    CompareTimes(q, least, b);
    CompareTimes(q, least + 1, b);
    assert (least + 1) * b == least * b + b;
  }

  lemma LeastIsPositive(a: int, b: int, least: int)
    requires a > 0 && b > 0 && a == least * b
    ensures 0 < least <= a
  {
  }

  lemma RoundsAboveWhole(x: real, n: int)
    requires x > 0.0 && 0 < n < 4503599627370496
    ensures Nearest(x) > n as real <==> x > n as real + HalfUlp(n as real)
  {
    hide NearestPositive, HalfUlp, IsEven;
    WholeIsEven(n as real);
    if x >= n as real {
      RoundsAboveEven(x, n as real);
    } else {
      NearestPositiveIsMonotone(x, n as real);
      WholeIsExact(n as real);
      HalfUlpFits(n as real);
    }
  }

  lemma QuotientAbove(x: real, y: real, c: real)
    requires y > 0.0
    ensures x / y > c <==> x > y * c
  {
  }

  /** For an exact division the doubles decide: the result is one too many exactly when their quotient is past a tie. */
  lemma CeilingPassesExactly(a: nat, b: int, least: int)
    requires 0 < a < 0x8_0000_0000_0000 && b > 0 && a == least * b
    ensures 0 < least <= a
    ensures CeilingOfQuotient(a, b) == least + 1 <==>
      FromGrid(a) > FromGrid(b) * (least as real + HalfUlp(least as real))
  {
    hide Nearest, HalfUlp, FromGrid, Ceiling;
    LeastIsPositive(a, b, least);
    PositiveGrid(a);
    PositiveGrid(b);
    var (x, y, n) := (FromGrid(a), FromGrid(b), least as real);
    QuotientAbove(x, y, 0.0);
    QuotientAbove(x, y, n + HalfUlp(n));
    RoundsAboveWhole(x / y, least);
    CeilingBetween(Quotient(a, b), least + 1);
    assert (least - 1) * b == a - b;
    CeilingIsLeastOrNext(a, b, least);
  }

  /** Amounts in whole sixteenths, as all whole and quarter amounts are, are doubles themselves. */
  lemma SixteenthsAreExact(k: nat)
    requires k % 625 == 0 && k < 0x8_0000_0000_0000
    ensures FromGrid(k) == k as real / 10000.0
  {
    var m := k / 625;
    if k > 0 {
      var x := k as real / 10000.0;
      assert m as real * 625.0 == k as real;
      assert x * 16.0 == m as real;
      WholeIsExact(x * 16.0);
      SixteenTimes(x);
    }
  }

  lemma SixteenTimes(x: real)
    requires x > 0.0
    ensures 16.0 * NearestPositive(x) == NearestPositive(16.0 * x)
  {
    hide NearestPositive;
    ScaledOnce(x);
    ScaledOnce(2.0 * x);
    ScaledOnce(4.0 * x);
    ScaledOnce(8.0 * x);
  }

  /** So costs and unit contribution in whole sixteenths never give one too many. */
  lemma SixteenthsAreLeast(a: nat, b: int, least: int)
    requires a < 0x8_0000_0000_0000 && b > 0 && (least - 1) * b < a <= least * b && a % 625 == 0 && b % 625 == 0
    ensures CeilingOfQuotient(a, b) == least
  {
    hide FromGrid, HalfUlp, CeilingOfQuotient;
    if a == 0 {
      FreeIsZero(b, least);
    } else {
      CeilingIsLeastOrNext(a, b, least);
      if a == least * b {
        DividingSixteenths(a, b, least);
        CeilingPassesExactly(a, b, least);
      }
    }
  }

  lemma BelowWidened(x: real, y: real, n: real, h: real)
    requires y > 0.0 && h > 0.0 && x == y * n
    ensures x < y * (n + h)
  {
    assert y * (n + h) == y * n + y * h;
  }

  lemma DividedGrid(a: int, b: int, least: int)
    requires a == least * b
    ensures a as real / 10000.0 == b as real / 10000.0 * least as real
  {
    assert a as real == least as real * b as real;
  }

  lemma DividingSixteenths(a: nat, b: int, least: int)
    requires 0 < a < 0x8_0000_0000_0000 && b > 0 && a == least * b && a % 625 == 0 && b % 625 == 0
    ensures 0 < least && FromGrid(a) < FromGrid(b) * (least as real + HalfUlp(least as real))
  {
    hide FromGrid, HalfUlp, IsEven;
    LeastIsPositive(a, b, least);
    LeastIsPositive(a, least, b);
    SixteenthsAreExact(a);
    SixteenthsAreExact(b);
    WholeIsEven(least as real);
    HalfUlpFits(least as real);
    DividedGrid(a, b, least);
    BelowWidened(FromGrid(a), FromGrid(b), least as real, HalfUlp(least as real));
  }

  lemma SignOfProduct(n: int, b: int)
    requires b > 0
    ensures n * b >= 0 <==> n >= 0
  {
  }

  lemma FreeIsZero(b: int, least: int)
    requires b > 0 && (least - 1) * b < 0 <= least * b
    ensures CeilingOfQuotient(0, b) == 0 == least
  {
    PositiveGrid(b);
    SignOfProduct(least, b);
    SignOfProduct(least - 1, b);
  }

  // ---------------------------------------------------------------- a whole unit too many

  /** The double that stands for 0.70 lies a little below it. */
  lemma SeventyCents()
    ensures FromGrid(7000) * 9007199254740992.0 == 6305039478318694.0
  {
    LargePowers();
    ScaledByPower(0.7, 53, 9007199254740992.0, 6305039478318694.4);
    BetweenPowers(6305039478318694.4);
    hide NearestPositive;
  }

  lemma HalfUlpOf500()
    ensures HalfUlp(500.0) * 35184372088832.0 == 1.0
  {
    LargePowers();
    ScaledByPower(500.0, 44, 17592186044416.0, 8796093022208000.0);
    assert HalfUlp(8796093022208000.0) == 0.5;
  }

  /** Costs of 350 and a unit contribution of 0.70: five hundred units cover them, the source computes 501. */
  lemma TieAt350()
    ensures CeilingOfQuotient(350_0000, 7000) == 501
  {
    hide FromGrid, HalfUlp, CeilingOfQuotient;
    SeventyCents();
    HalfUlpOf500();
    SixteenthsAreExact(350_0000);
    CeilingPassesExactly(350_0000, 7000, 500);
  }

  // ---------------------------------------------------------------- staying on the grid

  /** Sums, differences and products up to this many ten-thousandths, about 56 thousand millions, come out exact. */
  const GRID_LIMIT := 0x2_0000_0000_0000

  function AbsReal(x: real): real { if x < 0.0 then -x else x }

  predicate Within(x: real, y: real, slack: real) { y - slack <= x <= y + slack }

  lemma AbsoluteError(x: real, bound: real)
    requires AbsReal(x) <= bound
    ensures Within(Nearest(x), x, bound / TWO_53)
  {
    NearestIsNear(x);
  }

  /** A value this close to a whole number of steps is rounded to it. */
  lemma GridOfClose(x: real, k: int)
    requires -GRID_LIMIT <= k <= GRID_LIMIT && Within(x * 10000.0, k as real, 0.2)
    ensures GridOf(x) == k
  {
    hide Nearest;
    var limit := GRID_LIMIT as real + 2.0;
    AbsoluteError(x + EPSILON, limit / 10000.0);
    AbsoluteError(Nearest(x + EPSILON) * 10000.0, limit);
  }

  lemma FromGridIsClose(k: int, bound: real)
    requires -bound <= k as real <= bound
    ensures Within(FromGrid(k) * 10000.0, k as real, bound / TWO_53)
  {
    hide Nearest;
    AbsoluteError(k as real / 10000.0, bound / 10000.0);
  }

  /** Rounding an amount of the grid gives it back. */
  lemma RoundingKeepsGrid(k: int)
    requires -GRID_LIMIT <= k <= GRID_LIMIT
    ensures GridOf(FromGrid(k)) == k
  {
    hide FromGrid, GridOf;
    FromGridIsClose(k, GRID_LIMIT as real);
    GridOfClose(FromGrid(k), k);
  }

  lemma SumIsClose(a: int, b: int)
    requires -GRID_LIMIT <= a + a <= GRID_LIMIT && -GRID_LIMIT <= b + b <= GRID_LIMIT
    ensures Within(Nearest(FromGrid(a) + FromGrid(b)) * 10000.0, (a + b) as real, 0.2)
  {
    hide FromGrid, Nearest;
    var half := GRID_LIMIT as real / 2.0;
    FromGridIsClose(a, half);
    FromGridIsClose(b, half);
    AbsoluteError(FromGrid(a) + FromGrid(b), (GRID_LIMIT as real + 1.0) / 10000.0);
  }

  /** The rounded sum of two amounts is the amount of the sum. */
  lemma SumStaysOnGrid(a: int, b: int)
    requires -GRID_LIMIT <= a + a <= GRID_LIMIT && -GRID_LIMIT <= b + b <= GRID_LIMIT
    ensures GridOf(Nearest(FromGrid(a) + FromGrid(b))) == a + b
  {
    hide FromGrid, Nearest, GridOf;
    SumIsClose(a, b);
    GridOfClose(Nearest(FromGrid(a) + FromGrid(b)), a + b);
  }

  /** The rounded difference of two amounts is the amount of the difference. */
  lemma DifferenceStaysOnGrid(a: int, b: int)
    requires -GRID_LIMIT <= a + a <= GRID_LIMIT && -GRID_LIMIT <= b + b <= GRID_LIMIT
    ensures GridOf(Nearest(FromGrid(a) - FromGrid(b))) == a - b
  {
    SumStaysOnGrid(a, -b);
    NegatedGrid(b);
    hide FromGrid, Nearest, GridOf;
  }

  lemma NegatedGrid(k: int)
    ensures FromGrid(-k) == -FromGrid(k)
  {
    assert (-k) as real / 10000.0 == -(k as real / 10000.0);
  }

  /** The computed product of two doubles. */
  function Product(x: real, y: real): real { Nearest(x * y) }

  lemma ScaleWithin(x: real, centre: real, slack: real, y: real)
    requires y >= 0.0 && Within(x, centre, slack)
    ensures Within(x * y, centre * y, slack * y)
  {
    ScaleOrder(y, x, centre + slack);
    ScaleOrder(y, centre - slack, x);
  }

  lemma AbsOfProduct(x: real, y: real)
    requires y >= 0.0
    ensures AbsReal(x) / TWO_53 * y == AbsReal(x * y) / TWO_53
  {
  }

  lemma ProductOfClose(x: real, y: real, a: real)
    requires y >= 0.0 && Within(x * 10000.0, a, AbsReal(a) / TWO_53)
    ensures Within(x * y * 10000.0, a * y, AbsReal(a * y) / TWO_53)
  {
    hide AbsReal;
    ScaleWithin(x * 10000.0, a, AbsReal(a) / TWO_53, y);
    AbsOfProduct(a, y);
    assert x * 10000.0 * y == x * y * 10000.0;
  }

  lemma ProductError(p: real, m: real)
    requires -GRID_LIMIT as real <= m <= GRID_LIMIT as real && Within(p * 10000.0, m, AbsReal(m) / TWO_53)
    ensures Within(Nearest(p) * 10000.0, m, 0.2)
  {
    hide Nearest;
    AbsoluteError(p, (GRID_LIMIT as real + 1.0) / 10000.0);
  }

  lemma RoundedProductOfClose(x: real, y: real, a: real, m: real)
    requires y >= 0.0 && Within(x * 10000.0, a, AbsReal(a) / TWO_53)
    requires m == a * y && -GRID_LIMIT as real <= m <= GRID_LIMIT as real
    ensures Within(Product(x, y) * 10000.0, m, 0.2)
  {
    ProductOfClose(x, y, a);
    hide Nearest, Within, AbsReal;
    ProductError(x * y, a * y);
  }

  lemma RealProduct(a: int, n: int)
    ensures a as real * n as real == (a * n) as real
  {
  }

  lemma ProductIsClose(a: int, n: nat)
    requires -GRID_LIMIT <= a * n <= GRID_LIMIT
    ensures Within(Product(FromGrid(a), n as real) * 10000.0, (a * n) as real, 0.2)
  {
    hide FromGrid, Product, Within, AbsReal;
    AbsIsBound(a as real);
    FromGridIsClose(a, AbsReal(a as real));
    RealProduct(a, n);
    RoundedProductOfClose(FromGrid(a), n as real, a as real, (a * n) as real);
  }

  lemma AbsIsBound(x: real)
    ensures -AbsReal(x) <= x <= AbsReal(x)
  {
  }

  /** The rounded product of an amount and a count is the amount of the product. */
  lemma ProductStaysOnGrid(a: int, n: nat)
    requires -GRID_LIMIT <= a * n <= GRID_LIMIT
    ensures GridOf(Product(FromGrid(a), n as real)) == a * n
  {
    hide FromGrid, Product, GridOf, Within;
    ProductIsClose(a, n);
    GridOfClose(Product(FromGrid(a), n as real), a * n);
  }

  /** Rounding to the grid moves a value by about half a step, and large values by a few units in the last place. */
  lemma GridOfIsNear(x: real)
    requires x >= 0.0
    ensures Within(GridOf(x) as real, x * 10000.0, 0.6 + x * 30000.0 / TWO_53)
  {
    hide Nearest;
    NearestIsNear(x + EPSILON);
    NearestIsNear(Nearest(x + EPSILON) * 10000.0);
  }

  lemma GridOfIsMonotone(x: real, y: real)
    requires x <= y
    ensures GridOf(x) <= GridOf(y)
  {
    hide Nearest;
    NearestIsMonotone(x + EPSILON, y + EPSILON);
    NearestIsMonotone(Nearest(x + EPSILON) * 10000.0, Nearest(y + EPSILON) * 10000.0);
  }

  /** Up to about 56 thousand millions, whole numbers come back from the grid as they are. */
  lemma WholeStaysOnGrid(n: int)
    requires -GRID_LIMIT <= n * 10000 <= GRID_LIMIT
    ensures GridOf(n as real) == n * 10000
  {
    hide GridOf;
    GridOfClose(n as real, n * 10000);
  }

  /** The computed quotient orders like the exact one. */
  lemma QuotientIsMonotone(a: nat, b: int, a': nat, b': int)
    requires a <= a' && b >= b' > 0
    ensures Quotient(a, b) <= Quotient(a', b')
  {
    hide Nearest;
    PositiveGrid(b);
    PositiveGrid(b');
    NearestIsMonotone(a as real / 10000.0, a' as real / 10000.0);
    NearestIsMonotone(b' as real / 10000.0, b as real / 10000.0);
    NearestIsNear(a as real / 10000.0);
    QuotientOrder(FromGrid(a), FromGrid(b), FromGrid(a'), FromGrid(b'));
    NearestIsMonotone(FromGrid(a) / FromGrid(b), FromGrid(a') / FromGrid(b'));
  }

  lemma QuotientOrder(x: real, y: real, x': real, y': real)
    requires 0.0 <= x <= x' && y >= y' > 0.0
    ensures x / y <= x' / y'
  {
    var q := x' / y';
    assert q >= 0.0 && q * y' == x';
    ScaleOrder(q, y', y);
    DivideBelow(x, y, q);
  }

  /**
   The quotient rounded to the grid is within a step of the exact one, and within a relative 2^-50 when it is large.
   */
  lemma GridQuotientIsNear(a: nat, b: int)
    requires b > 0
    ensures var x := a as real / b as real * 10000.0;
      Within(GridOf(Quotient(a, b)) as real, x, 0.6 + x * 8.0 / TWO_53)
  {
    hide Quotient, GridOf;
    QuotientIsNear(a, b);
    GridOfIsNear(Quotient(a, b));
  }
}
