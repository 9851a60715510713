/** Money text: the decimal parser behind the editor's amount fields, and the fixed-decimal rendering it reads back. */
module Money {
  import opened Numerals
  import opened Options
  import opened Texts
  import LaunchTerms

  datatype Parsed = Amount(minor: nat) | Refused(reason: Refusal)

  datatype Refusal = UnknownCurrency | NotAnAmount | TooPrecise | TooLarge

  const WHOLE_DIGITS := 10

  // ---------------------------------------------------------------- text and digits

  predicate AllDigits(s: string) { s != "" && forall i :: 0 <= i < |s| ==> IsDigit(s[i]) }

  function CharDigit(c: char): Digit
    requires IsDigit(c)
  {
    c as int - '0' as int
  }

  function AsDigits(s: string): (ds: seq<Digit>)
    requires forall i :: 0 <= i < |s| ==> IsDigit(s[i])
    ensures |ds| == |s|
  {
    seq<Digit>(|s|, i requires 0 <= i < |s| => CharDigit(s[i]))
  }

  lemma DigitsOfText(ds: seq<Digit>)
    ensures forall i :: 0 <= i < |ds| ==> IsDigit(AsText(ds)[i])
    ensures AsDigits(AsText(ds)) == ds
  {
  }

  /** The position of the first decimal point, or the end. */
  function Point(s: string): (k: nat)
    ensures k <= |s| && (k < |s| ==> s[k] == '.') && forall i :: 0 <= i < k ==> s[i] != '.'
  {
    if s == "" || s[0] == '.' then 0 else 1 + Point(s[1..])
  }

  lemma {:induction false} PointAfterDigits(w: string, rest: string)
    requires (forall i :: 0 <= i < |w| ==> IsDigit(w[i])) && (rest == "" || rest[0] == '.')
    ensures Point(w + rest) == |w|
  {
    if w == "" {
      assert w + rest == rest;
    } else {
      PointAfterDigits(w[1..], rest);
      assert (w + rest)[1..] == w[1..] + rest;
    }
  }

  function Whole(s: string): string { s[..Point(s)] }

  function Fraction(s: string): string { if Point(s) == |s| then "" else s[Point(s) + 1..] }

  /** Digits, then optionally a point and more digits. */
  predicate WellShaped(s: string) { AllDigits(Whole(s)) && (Point(s) < |s| ==> AllDigits(Fraction(s))) }

  // ---------------------------------------------------------------- parsing and rendering

  function PadEnd(ds: seq<Digit>, n: nat): (r: seq<Digit>)
    requires |ds| <= n
    ensures |r| == n
  {
    ds + Zeros(n - |ds|)
  }

  function Sum(whole: seq<Digit>, fraction: seq<Digit>, digits: nat): nat
    requires |fraction| <= digits
  {
    Value(whole) * Pow10(digits) + Value(PadEnd(fraction, digits))
  }

  /** Reads an amount in minor units; digits is the precision of the currency, None for an unusable code. */
  function ParseMoney(text: Option<string>, digits: Option<nat>): Parsed {
    if digits.None? then Refused(UnknownCurrency)
    else if text.None? || !WellShaped(text.value) then Refused(NotAnAmount)
    else
      var (whole, fraction) := (AsDigits(Whole(text.value)), AsDigits(Fraction(text.value)));
      if |fraction| > digits.value || |whole| > WHOLE_DIGITS then Refused(TooPrecise)
      else
        var value := Sum(whole, fraction, digits.value);
        if value > LaunchTerms.MAX_SAFE_INTEGER || value > LaunchTerms.MAXIMUM_AMOUNT_MINOR then Refused(TooLarge)
        else Amount(value)
  }

  /** The digits of an amount, with zeros in front so that one is left before the point. */
  function PaddedDigits(amount: nat, digits: nat): (ds: seq<Digit>)
    ensures |ds| > digits
  {
    var ds := Digits(amount);
    if |ds| > digits then ds else Zeros(digits + 1 - |ds|) + ds
  }

  /** An amount divided by the power of ten, with exactly the digits of the currency. */
  function FixedDecimal(amount: nat, digits: nat): string {
    var ds := PaddedDigits(amount, digits);
    var k := |ds| - digits;
    AsText(ds[..k]) + if digits == 0 then "" else "." + AsText(ds[k..])
  }

  // ---------------------------------------------------------------- round trip

  lemma {:induction false} FewDigits(n: nat, k: nat)
    requires n < Pow10(k) && k > 0
    ensures |Digits(n)| <= k
    decreases k
  {
    if n >= 10 { FewDigits(n / 10, k - 1); }
  }

  lemma AmountHasTenDigits(amount: nat)
    requires amount <= LaunchTerms.MAXIMUM_AMOUNT_MINOR
    ensures |Digits(amount)| <= 10
  {
    assert Pow10(5) == 100000;
    assert Pow10(10) == 10000000000;
    FewDigits(amount, 10);
  }

  lemma PaddedValue(amount: nat, digits: nat)
    ensures Value(PaddedDigits(amount, digits)) == amount
  {
    var ds := Digits(amount);
    ValueOfDigits(amount);
    if |ds| <= digits {
      ValueOfConcat(Zeros(digits + 1 - |ds|), ds);
      ValueOfZeros(digits + 1 - |ds|);
    }
  }

  lemma PartsOfJoined(w: string, f: string)
    requires AllDigits(w) && AllDigits(f)
    ensures var s := w + ("." + f); Point(s) == |w| && Whole(s) == w && Fraction(s) == f && WellShaped(s)
    ensures Point(w) == |w| && Whole(w) == w && Fraction(w) == "" && WellShaped(w)
  {
    PointAfterDigits(w, "." + f);
    PointAfterDigits(w, "");
    assert w + "" == w && w[..|w|] == w;
    assert (w + ("." + f))[..|w|] == w && (w + ("." + f))[|w| + 1..] == f;
  }

  lemma PartsOfFixedDecimal(amount: nat, digits: nat)
    ensures var ds := PaddedDigits(amount, digits);
      var (s, k) := (FixedDecimal(amount, digits), |ds| - digits);
      WellShaped(s) && AsDigits(Whole(s)) == ds[..k] && AsDigits(Fraction(s)) == ds[k..]
  {
    hide Point, Whole, Fraction, WellShaped, PaddedDigits, AsDigits, AsText;
    var ds := PaddedDigits(amount, digits);
    var k := |ds| - digits;
    var w, f := AsText(ds[..k]), AsText(ds[k..]);
    DigitsOfText(ds[..k]);
    DigitsOfText(ds[k..]);
    if digits == 0 {
      PartsOfJoined(w, "0");
      DigitsOfText([]);
      assert AsText([]) == "" && w + "" == w;
    } else {
      PartsOfJoined(w, f);
    }
  }

  /** Parsing undoes rendering, for every amount up to one billion and every currency precision. */
  lemma MoneyRoundTrip(amount: nat, digits: nat)
    requires amount <= LaunchTerms.MAXIMUM_AMOUNT_MINOR
    ensures ParseMoney(Some(FixedDecimal(amount, digits)), Some(digits)) == Amount(amount)
  {
    hide FixedDecimal, PaddedDigits, Value, WellShaped, Whole, Fraction, AsDigits;
    var ds := PaddedDigits(amount, digits);
    var k := |ds| - digits;
    PartsOfFixedDecimal(amount, digits);
    WholeIsShort(amount, digits);
    ValueOfConcat(ds[..k], ds[k..]);
    assert ds == ds[..k] + ds[k..];
    PaddedValue(amount, digits);
    assert PadEnd(ds[k..], digits) == ds[k..];
  }

  lemma WholeIsShort(amount: nat, digits: nat)
    requires amount <= LaunchTerms.MAXIMUM_AMOUNT_MINOR
    ensures |PaddedDigits(amount, digits)| - digits <= WHOLE_DIGITS
  {
    AmountHasTenDigits(amount);
  }

  // ---------------------------------------------------------------- every text

  /** The text is digits, or digits on both sides of one point; the second part is empty when there is no point. */
  predicate MadeOf(s: string, w: string, f: string) {
    AllDigits(w) && ((f == "" && s == w) || (AllDigits(f) && s == w + ("." + f)))
  }

  /** The amount of digits before and after the point, in steps of the given precision. */
  function AmountOf(w: seq<Digit>, f: seq<Digit>, digits: nat): nat
    requires |f| <= digits
  {
    Value(w + f) * Pow10(digits - |f|)
  }

  lemma PowerSplit(m: nat, n: nat)
    ensures Pow10(m + n) == Pow10(m) * Pow10(n)
    decreases n
  {
    if n > 0 {
      PowerSplit(m, n - 1);
      TenTimes(Pow10(m), Pow10(n - 1), Pow10(n));
    }
  }

  /** Padding the fraction and adding up the parts multiplies the digits read as one number. */
  lemma SumIsAmount(w: seq<Digit>, f: seq<Digit>, digits: nat)
    requires |f| <= digits
    ensures Sum(w, f, digits) == AmountOf(w, f, digits)
  {
    var n := digits - |f|;
    ValueOfConcat(w, f);
    ValueOfConcat(f, Zeros(n));
    ValueOfZeros(n);
    PowerSplit(|f|, n);
    Distribute(Value(w), Pow10(|f|), Value(f), Pow10(n));
  }

  lemma Distribute(a: nat, p: nat, b: nat, q: nat)
    ensures a * (p * q) + b * q == (a * p + b) * q
  {
  }

  /** Which texts are amounts at all. */
  lemma ShapeMeaning(s: string)
    ensures WellShaped(s) <==> exists w, f :: MadeOf(s, w, f)
  {
    if WellShaped(s) {
      var (w, f) := (Whole(s), Fraction(s));
      assert s == w + if Point(s) == |s| then "" else "." + f;
      assert MadeOf(s, w, f);
    }
    if w, f :| MadeOf(s, w, f) {
      PartsOfJoined(w, if f == "" then "0" else f);
    }
  }

  /** What every text is read as: what is refused and why, and otherwise the amount its digits say. */
  lemma ParseExactly(s: string, digits: nat)
    ensures var r := ParseMoney(Some(s), Some(digits));
      && (r == Refused(NotAnAmount) <==> forall w, f :: !MadeOf(s, w, f))
      && forall w, f :: MadeOf(s, w, f) ==>
           r == if |w| > 10 || |f| > digits then Refused(TooPrecise)
                else if AmountOf(AsDigits(w), AsDigits(f), digits) > 1_000_000_000 then Refused(TooLarge)
                else Amount(AmountOf(AsDigits(w), AsDigits(f), digits))
  {
    ShapeMeaning(s);
    forall w, f | MadeOf(s, w, f)
      ensures WellShaped(s) && Whole(s) == w && Fraction(s) == f
      ensures |f| <= digits ==> Sum(AsDigits(w), AsDigits(f), digits) == AmountOf(AsDigits(w), AsDigits(f), digits)
    {
      PartsOfJoined(w, if f == "" then "0" else f);
      if |f| <= digits { SumIsAmount(AsDigits(w), AsDigits(f), digits); }
    }
    hide WellShaped, Whole, Fraction, Sum, AmountOf;
  }

  // ---------------------------------------------------------------- when two texts mean the same amount

  function StripLeading(ds: seq<Digit>): seq<Digit> { if ds != [] && ds[0] == 0 then StripLeading(ds[1..]) else ds }

  function StripTrailing(ds: seq<Digit>): (r: seq<Digit>)
    ensures |r| <= |ds|
  {
    if ds != [] && ds[|ds| - 1] == 0 then StripTrailing(ds[..|ds| - 1]) else ds
  }

  lemma {:induction false} StripLeadingKeepsValue(ds: seq<Digit>)
    ensures Value(StripLeading(ds)) == Value(ds)
    ensures StripLeading(ds) == [] || StripLeading(ds)[0] != 0
  {
    if ds != [] && ds[0] == 0 {
      StripLeadingKeepsValue(ds[1..]);
      ValueOfConcat([0], ds[1..]);
      assert ds == [0] + ds[1..] && Value([0]) == Value([]) * 10;
    }
  }

  /** Numerals have one value exactly when they are alike after their leading zeros. */
  lemma WholeDeterminesDigits(a: seq<Digit>, b: seq<Digit>)
    ensures Value(a) == Value(b) <==> StripLeading(a) == StripLeading(b)
  {
    var a', b' := StripLeading(a), StripLeading(b);
    StripLeadingKeepsValue(a);
    StripLeadingKeepsValue(b);
    if Value(a) == Value(b) {
      PositiveUnlessEmpty(a');
      PositiveUnlessEmpty(b');
      if a' != [] && b' != [] {
        DigitsOfValue(a');
        DigitsOfValue(b');
      }
    }
  }

  lemma PositiveUnlessEmpty(ds: seq<Digit>)
    requires ds == [] || ds[0] != 0
    ensures ds != [] <==> Value(ds) > 0
  {
    if ds != [] { PowerBelowValue(ds); }
  }

  lemma {:induction false} SameLengthSameValue(a: seq<Digit>, b: seq<Digit>)
    requires |a| == |b| && Value(a) == Value(b)
    ensures a == b
    decreases |a|
  {
    if a != [] {
      var n := |a| - 1;
      SameLengthSameValue(a[..n], b[..n]);
      assert a == a[..n] + [a[n]] && b == b[..n] + [b[n]];
    }
  }

  lemma {:induction false} TrailingZeros(ds: seq<Digit>)
    ensures ds == StripTrailing(ds) + Zeros(|ds| - |StripTrailing(ds)|)
    decreases |ds|
  {
    if ds != [] && ds[|ds| - 1] == 0 {
      var init := ds[..|ds| - 1];
      TrailingZeros(init);
      assert ds == init + [0];
      assert Zeros(|ds| - |StripTrailing(ds)|) == Zeros(|init| - |StripTrailing(ds)|) + [0];
    } else {
      assert Zeros(0) == [];
    }
  }

  lemma {:induction false} StripAppendedZeros(ds: seq<Digit>, n: nat)
    ensures StripTrailing(ds + Zeros(n)) == StripTrailing(ds)
    decreases n
  {
    if n == 0 {
      assert ds + Zeros(0) == ds;
    } else {
      assert (ds + Zeros(n))[..|ds| + n - 1] == ds + Zeros(n - 1);
      StripAppendedZeros(ds, n - 1);
    }
  }

  lemma PadKeepsStripped(a: seq<Digit>, n: nat)
    requires |a| <= n
    ensures StripTrailing(PadEnd(a, n)) == StripTrailing(a)
    ensures PadEnd(a, n) == StripTrailing(a) + Zeros(n - |StripTrailing(a)|)
  {
    StripAppendedZeros(a, n - |a|);
    TrailingZeros(PadEnd(a, n));
    hide StripTrailing, Zeros;
  }

  /** Padded fractions agree exactly when the fractions are alike before their trailing zeros. */
  lemma FractionDeterminesDigits(a: seq<Digit>, b: seq<Digit>, n: nat)
    requires |a| <= n && |b| <= n
    ensures PadEnd(a, n) == PadEnd(b, n) <==> StripTrailing(a) == StripTrailing(b)
  {
    hide PadEnd, StripTrailing, Zeros;
    PadKeepsStripped(a, n);
    PadKeepsStripped(b, n);
  }

  lemma AtLeastOnce(low: nat, high: nat, p: nat)
    requires low < high
    ensures high * p >= low * p + p
  {
    assert high * p == (low + 1) * p + (high - low - 1) * p;
  }

  lemma QuotientAndRemainder(q: nat, r: nat, q': nat, r': nat, p: nat)
    requires r < p && r' < p && q * p + r == q' * p + r'
    ensures q == q' && r == r'
  {
    if q < q' {
      AtLeastOnce(q, q', p);
    } else if q > q' {
      AtLeastOnce(q', q, p);
    }
  }

  /** Two accepted texts mean the same amount exactly when they differ only in leading zeros of the whole part and
      trailing zeros of the fraction. */
  lemma SameAmountSameDigits(a: string, b: string, digits: nat)
    requires ParseMoney(Some(a), Some(digits)).Amount? && ParseMoney(Some(b), Some(digits)).Amount?
    ensures ParseMoney(Some(a), Some(digits)) == ParseMoney(Some(b), Some(digits))
      <==> StripLeading(AsDigits(Whole(a))) == StripLeading(AsDigits(Whole(b)))
           && StripTrailing(AsDigits(Fraction(a))) == StripTrailing(AsDigits(Fraction(b)))
  {
    var (wa, fa) := (AsDigits(Whole(a)), AsDigits(Fraction(a)));
    var (wb, fb) := (AsDigits(Whole(b)), AsDigits(Fraction(b)));
    var (pa, pb) := (PadEnd(fa, digits), PadEnd(fb, digits));
    hide Whole, Fraction, PadEnd, Value, StripLeading, StripTrailing;
    WholeDeterminesDigits(wa, wb);
    FractionDeterminesDigits(fa, fb, digits);
    ValueBelowPower(pa);
    ValueBelowPower(pb);
    if Sum(wa, fa, digits) == Sum(wb, fb, digits) {
      QuotientAndRemainder(Value(wa), Value(pa), Value(wb), Value(pb), Pow10(digits));
      SameLengthSameValue(pa, pb);
    }
  }

  // ---------------------------------------------------------------- sums before the size check

  ghost predicate SumsAreSafe(digits: nat) {
    forall whole: seq<Digit>, fraction: seq<Digit> ::
      |whole| <= WHOLE_DIGITS && |fraction| <= digits ==> Sum(whole, fraction, digits) <= LaunchTerms.MAX_SAFE_INTEGER
  }

  lemma {:induction false} Pow10Monotone(m: nat, n: nat)
    requires m <= n
    ensures Pow10(m) <= Pow10(n)
    decreases n
  {
    if m < n { Pow10Monotone(m, n - 1); }
  }

  lemma SmallSum(whole: seq<Digit>, fraction: seq<Digit>, digits: nat)
    requires |whole| <= WHOLE_DIGITS && |fraction| <= digits <= 5
    ensures Sum(whole, fraction, digits) <= LaunchTerms.MAX_SAFE_INTEGER
  {
    ValueBelowPower(whole);
    ValueBelowPower(PadEnd(fraction, digits));
    Pow10Monotone(|whole|, 10);
    Pow10Monotone(digits, 5);
    assert Pow10(5) == 100000;
    assert Pow10(10) == 10000000000;
    var (w, p) := (Value(whole), Pow10(digits));
    assert w * p <= 9999999999 * p;
  }

  /** Ten nines are already too much at six decimals. */
  lemma NinesSum(digits: nat)
    requires digits > 5
    ensures Sum([9, 9, 9, 9, 9, 9, 9, 9, 9, 9], [], digits) > LaunchTerms.MAX_SAFE_INTEGER
  {
    Pow10Monotone(6, digits);
    assert Pow10(6) == 1000000 by { assert Pow10(3) == 1000; }
    var nines: seq<Digit> := [9, 9, 9, 9, 9];
    assert Value(nines) == 99999 by {
      assert nines[..4][..3][..2] == [9, 9] && Value([9, 9]) == 99;
    }
    assert Pow10(5) == 100000;
    ValueOfConcat(nines, nines);
    assert nines + nines == [9, 9, 9, 9, 9, 9, 9, 9, 9, 9];
    assert Value(nines + nines) * Pow10(digits) >= 9999999999 * 1000000;
  }

  /** Before the size check every sum is an exact integer, exactly for currencies of at most five decimals. */
  lemma SumsAreSafeUpToFive(digits: nat)
    ensures SumsAreSafe(digits) <==> digits <= 5
  {
    if digits <= 5 {
      forall whole: seq<Digit>, fraction: seq<Digit> | |whole| <= WHOLE_DIGITS && |fraction| <= digits
        ensures Sum(whole, fraction, digits) <= LaunchTerms.MAX_SAFE_INTEGER
      {
        SmallSum(whole, fraction, digits);
      }
    } else {
      NinesSum(digits);
    }
  }
}
