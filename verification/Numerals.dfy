/** Decimal numerals: the digits of a natural number, most significant first, and their value. */
module Numerals {

  type Digit = d: int | 0 <= d <= 9

  function Digits(n: nat): (ds: seq<Digit>)
    ensures |ds| >= 1
    ensures n > 0 ==> ds[0] != 0
    ensures n < 10 ==> ds == [n]
    decreases n
  {
    if n < 10 then [n] else Digits(n / 10) + [n % 10]
  }

  function DigitChar(d: Digit): char { '0' + d as char }

  function AsText(ds: seq<Digit>): (s: string)
    ensures |s| == |ds| && forall i :: 0 <= i < |ds| ==> s[i] == DigitChar(ds[i])
  {
    seq(|ds|, i requires 0 <= i < |ds| => DigitChar(ds[i]))
  }

  function Value(ds: seq<Digit>): nat {
    if ds == [] then 0 else Value(ds[..|ds| - 1]) * 10 + ds[|ds| - 1]
  }

  function Pow10(n: nat): (p: nat)
    ensures p >= 1
  {
    if n == 0 then 1 else 10 * Pow10(n - 1)
  }

  function Zeros(n: nat): (ds: seq<Digit>)
    ensures |ds| == n
    ensures forall i :: 0 <= i < n ==> ds[i] == 0
  {
    seq(n, _ => 0)
  }

  lemma {:induction false} ValueOfDigits(n: nat)
    ensures Value(Digits(n)) == n
    decreases n
  {
    if n >= 10 {
      ValueOfDigits(n / 10);
      assert Digits(n)[..|Digits(n)| - 1] == Digits(n / 10);
    } else {
      assert Value([n]) == Value([]) * 10 + n;
    }
  }

  lemma TenTimes(v: nat, p: nat, q: nat)
    requires q == 10 * p
    ensures v * p * 10 == v * q
  {
  }

  lemma {:induction false} ValueOfConcat(a: seq<Digit>, b: seq<Digit>)
    ensures Value(a + b) == Value(a) * Pow10(|b|) + Value(b)
    decreases |b|
  {
    if b == [] {
      assert a + b == a;
    } else {
      var b', d := b[..|b| - 1], b[|b| - 1];
      ValueOfConcat(a, b');
      TenTimes(Value(a), Pow10(|b'|), Pow10(|b|));
      ValueOfLast(b', d);
      ValueOfLast(a + b', d);
      hide Value, Pow10;
      assert b == b' + [d] && a + b == a + b' + [d];
    }
  }

  lemma ValueOfLast(ds: seq<Digit>, d: Digit)
    ensures Value(ds + [d]) == Value(ds) * 10 + d
  {
    assert (ds + [d])[..|ds|] == ds;
  }

  lemma {:induction false} ValueOfZeros(n: nat)
    ensures Value(Zeros(n)) == 0
  {
    if n > 0 {
      assert Zeros(n)[..n - 1] == Zeros(n - 1);
      ValueOfZeros(n - 1);
    }
  }

  lemma {:induction false} ValueBelowPower(ds: seq<Digit>)
    ensures Value(ds) < Pow10(|ds|)
    decreases |ds|
  {
    if ds != [] {
      ValueBelowPower(ds[..|ds| - 1]);
    }
  }

  lemma {:induction false} PowerBelowValue(ds: seq<Digit>)
    requires ds != [] && ds[0] != 0
    ensures Value(ds) >= Pow10(|ds| - 1)
    decreases |ds|
  {
    if |ds| == 1 {
      assert ds[..0] == [];
    } else {
      PowerBelowValue(ds[..|ds| - 1]);
    }
  }

  /** Digits reads back any numeral that has no superfluous leading zero. */
  lemma {:induction false} DigitsOfValue(ds: seq<Digit>)
    requires ds != [] && (|ds| == 1 || ds[0] != 0)
    ensures Digits(Value(ds)) == ds
    decreases |ds|
  {
    var init := ds[..|ds| - 1];
    if |ds| == 1 {
      assert init == [];
    } else {
      DigitsOfValue(init);
      PowerBelowValue(init);
      assert ds == init + [ds[|ds| - 1]];
    }
  }
}
