/** The smaller and the larger of two integers, and the order of their multiples. */
module Integers {
  function Min(a: int, b: int): int { if a <= b then a else b }

  function Max(a: int, b: int): int { if a <= b then b else a }

  /** Multiplying by a number that is not negative keeps the order. */
  lemma ScaledOrder(low: int, mid: int, high: int, n: nat)
    requires low <= mid <= high
    ensures low * n <= mid * n <= high * n
  {
    assert (mid - low) * n >= 0 && (high - mid) * n >= 0;
  }
}
