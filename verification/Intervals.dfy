/**
 Interval arithmetic of the plan models. Amounts are whole numbers of ten-thousandths, the grid that
 validated money lies on; counts (units, months) are whole numbers. Floating-point error is not modelled,
 the rounding to the grid and the cut-off at the largest safe integer are.
 */
module Intervals {
  import opened Integers
  import opened Options

  /** The largest safe integer, in ten-thousandths. */
  const MAX_SAFE := 9007199254740991_0000

  datatype Range = Range(low: int, high: int)

  predicate Ordered(r: Range) { r.low <= r.high }

  predicate In(r: Range, x: int) { r.low <= x <= r.high }

  function Abs(x: int): nat { if x < 0 then -x else x }

  lemma DivBounds(a: int, b: int)
    requires b > 0
    ensures a / b * b <= a < a / b * b + b
  {
  }

  /**
   The range between two whole numbers of steps, in either order; Doubles.RoundingKeepsGrid is why its ends need no
   rounding.
   */
  function FiniteRange(low: int, high: int): Option<Range> {
    if Max(Abs(low), Abs(high)) > MAX_SAFE then None else Some(Range(Min(low, high), Max(low, high)))
  }

  function Add(a: Option<Range>, b: Option<Range>): Option<Range> {
    if a.Some? && b.Some? then FiniteRange(a.value.low + b.value.low, a.value.high + b.value.high) else None
  }

  function Subtract(a: Option<Range>, b: Option<Range>): Option<Range> {
    if a.Some? && b.Some? then FiniteRange(a.value.low - b.value.high, a.value.high - b.value.low) else None
  }

  /** An amount times a count: the hull of the four products of end points. */
  function Multiply(a: Option<Range>, b: Option<Range>): Option<Range> {
    if a.Some? && b.Some? then
      var (p, q, r, s) := (a.value.low * b.value.low, a.value.low * b.value.high, a.value.high * b.value.low,
        a.value.high * b.value.high);
      FiniteRange(Min(Min(p, q), Min(r, s)), Max(Max(p, q), Max(r, s)))
    else None
  }

  function PositivePart(a: Option<Range>): Option<Range> {
    if a.Some? then FiniteRange(Max(0, a.value.low), Max(0, a.value.high)) else None
  }

  // ---------------------------------------------------------------- exactness

  /** A result interval is exact for a set of values: it contains every one and both of its ends are among them. */
  ghost predicate Exact(r: Range, values: iset<int>) {
    r.low in values && r.high in values && forall x :: x in values ==> In(r, x)
  }

  lemma FiniteRangeIsExact(low: int, high: int)
    requires low <= high && FiniteRange(low, high).Some?
    ensures FiniteRange(low, high) == Some(Range(low, high))
  {
  }

  lemma AddEnds(a: Range, b: Range)
    requires Ordered(a) && Ordered(b)
    ensures Add(Some(a), Some(b)).Some? ==> Add(Some(a), Some(b)).value == Range(a.low + b.low, a.high + b.high)
    ensures -MAX_SAFE <= a.low + b.low && a.high + b.high <= MAX_SAFE ==> Add(Some(a), Some(b)).Some?
  {
    if Add(Some(a), Some(b)).Some? { FiniteRangeIsExact(a.low + b.low, a.high + b.high); }
  }

  lemma SubtractEnds(a: Range, b: Range)
    requires Ordered(a) && Ordered(b)
    ensures Subtract(Some(a), Some(b)).Some? ==>
      Subtract(Some(a), Some(b)).value == Range(a.low - b.high, a.high - b.low)
    ensures -MAX_SAFE <= a.low - b.high && a.high - b.low <= MAX_SAFE ==> Subtract(Some(a), Some(b)).Some?
  {
    if Subtract(Some(a), Some(b)).Some? { FiniteRangeIsExact(a.low - b.high, a.high - b.low); }
  }

  lemma PositivePartEnds(a: Range)
    requires Ordered(a)
    ensures PositivePart(Some(a)).Some? ==> PositivePart(Some(a)).value == Range(Max(0, a.low), Max(0, a.high))
    ensures a.high <= MAX_SAFE ==> PositivePart(Some(a)).Some?
  {
    if PositivePart(Some(a)).Some? { FiniteRangeIsExact(Max(0, a.low), Max(0, a.high)); }
  }

  lemma AddIsExact(a: Range, b: Range)
    requires Ordered(a) && Ordered(b)
    ensures Add(Some(a), Some(b)).Some? ==>
      Exact(Add(Some(a), Some(b)).value, iset x, y | In(a, x) && In(b, y) :: x + y)
  {
    AddEnds(a, b);
    assert In(a, a.low) && In(b, b.low) && In(a, a.high) && In(b, b.high);
  }

  lemma SubtractIsExact(a: Range, b: Range)
    requires Ordered(a) && Ordered(b)
    ensures Subtract(Some(a), Some(b)).Some? ==>
      Exact(Subtract(Some(a), Some(b)).value, iset x, y | In(a, x) && In(b, y) :: x - y)
  {
    SubtractEnds(a, b);
    assert In(a, a.low) && In(b, b.low) && In(a, a.high) && In(b, b.high);
  }

  lemma PositivePartIsExact(a: Range)
    requires Ordered(a)
    ensures PositivePart(Some(a)).Some? ==> Exact(PositivePart(Some(a)).value, iset x | In(a, x) :: Max(0, x))
  {
    PositivePartEnds(a);
    assert In(a, a.low) && In(a, a.high);
  }

  lemma ScaleBounds(x: int, low: int, high: int, y: int)
    requires low <= x <= high
    ensures Min(low * y, high * y) <= x * y <= Max(low * y, high * y)
  {
    if y >= 0 {
      assert (x - low) * y >= 0 && (high - x) * y >= 0;
    } else {
      assert (x - low) * -y >= 0 && (high - x) * -y >= 0;
    }
  }

  ghost function Products(a: Range, b: Range): iset<int> { iset x, y | In(a, x) && In(b, y) :: x * y }

  lemma InProducts(a: Range, b: Range, x: int, y: int)
    requires In(a, x) && In(b, y)
    ensures x * y in Products(a, b)
  {
  }

  lemma CornerBounds(x: int, y: int, a: Range, b: Range)
    requires In(a, x) && In(b, y)
    ensures Min(Min(a.low * b.low, a.low * b.high), Min(a.high * b.low, a.high * b.high)) <= x * y
    ensures x * y <= Max(Max(a.low * b.low, a.low * b.high), Max(a.high * b.low, a.high * b.high))
  {
    ScaleBounds(x, a.low, a.high, y);
    ScaleBounds(y, b.low, b.high, a.low);
    ScaleBounds(y, b.low, b.high, a.high);
  }

  /** The hull of the corner products is exact for every sign of the factors. */
  lemma MultiplyIsExact(a: Range, b: Range)
    requires Ordered(a) && Ordered(b)
    ensures Multiply(Some(a), Some(b)).Some? ==> Exact(Multiply(Some(a), Some(b)).value, Products(a, b))
  {
    var (p, q, r, s) := (a.low * b.low, a.low * b.high, a.high * b.low, a.high * b.high);
    var low, high := Min(Min(p, q), Min(r, s)), Max(Max(p, q), Max(r, s));
    if Multiply(Some(a), Some(b)).Some? { FiniteRangeIsExact(low, high); }
    InProducts(a, b, a.low, b.low);
    InProducts(a, b, a.low, b.high);
    InProducts(a, b, a.high, b.low);
    InProducts(a, b, a.high, b.high);
    forall v | v in Products(a, b) ensures low <= v <= high {
      var x, y :| In(a, x) && In(b, y) && v == x * y;
      CornerBounds(x, y, a, b);
    }
  }

  /** For an amount and a single count that is not negative the ends multiply. */
  lemma MultiplyByCount(a: Range, n: nat)
    requires Ordered(a)
    ensures Multiply(Some(a), Some(Range(n, n))).Some? ==>
      Multiply(Some(a), Some(Range(n, n))).value == Range(a.low * n, a.high * n)
  {
    ScaleBounds(a.low, a.low, a.high, n);
    assert a.low * n <= a.high * n;
    if Multiply(Some(a), Some(Range(n, n))).Some? { FiniteRangeIsExact(a.low * n, a.high * n); }
  }

  // ---------------------------------------------------------------- quotients

  function CeilDiv(a: int, b: int): int
    requires b > 0
  {
    -((-a) / b)
  }

  /** The least whole n with n * b at least a. */
  lemma CeilDivIsLeast(a: int, b: int, n: int)
    requires b > 0
    ensures CeilDiv(a, b) * b >= a
    ensures n * b >= a <==> n >= CeilDiv(a, b)
  {
    var q := (-a) / b;
    DivBounds(-a, b);
    NegatedProduct(q, b);
    if n >= -q {
      ScaledOrder(-q, n, n, b);
    } else {
      ScaledOrder(n, -q - 1, -q - 1, b);
      assert (-q - 1) * b == -q * b - b;
    }
  }

  lemma NegatedProduct(q: int, b: int)
    ensures -q * b == -(q * b)
  {
  }

  lemma CeilDivMonotone(a: int, b: int, a': int, b': int)
    requires 0 <= a <= a' && b >= b' > 0
    ensures CeilDiv(a, b) <= CeilDiv(a', b')
  {
    var n := CeilDiv(a', b');
    CeilDivIsLeast(a', b', n);
    assert n >= 0 by { CeilDivIsLeast(a', b', -1); }
    assert n * b >= n * b';
    CeilDivIsLeast(a, b, n);
  }
}
