/**
 The canonical JSON text that evidence digests are computed over. Strings are sequences of UTF-16
 code units, so unpaired surrogates and the code-unit order of object keys are represented exactly.
 */
module CanonicalJson {
  import opened Numerals
  import opened Options
  import opened Sorting

  type Unit = u: int | 0 <= u < 0x1_0000
  type Text = seq<Unit>

  const QUOTE: Unit := 0x22
  const COMMA: Unit := 0x2C
  const MINUS: Unit := 0x2D
  const POINT: Unit := 0x2E
  const COLON: Unit := 0x3A
  const OPEN_BRACKET: Unit := 0x5B
  const BACKSLASH: Unit := 0x5C
  const CLOSE_BRACKET: Unit := 0x5D
  const LOWER_E: Unit := 0x65
  const LOWER_U: Unit := 0x75
  const OPEN_BRACE: Unit := 0x7B
  const CLOSE_BRACE: Unit := 0x7D
  const NULL_WORD: Text := [0x6E, 0x75, 0x6C, 0x6C]
  const TRUE_WORD: Text := [0x74, 0x72, 0x75, 0x65]
  const FALSE_WORD: Text := [0x66, 0x61, 0x6C, 0x73, 0x65]

  // ---------------------------------------------------------------- strings

  predicate IsHigh(u: Unit) { 0xD800 <= u <= 0xDBFF }

  predicate IsLow(u: Unit) { 0xDC00 <= u <= 0xDFFF }

  function HexDigit(n: int): Unit
    requires 0 <= n < 16
  {
    if n < 10 then 0x30 + n else 0x57 + n
  }

  function HexEscape(u: Unit): Text {
    [BACKSLASH, LOWER_U, HexDigit(u / 0x1000), HexDigit(u / 0x100 % 0x10), HexDigit(u / 0x10 % 0x10),
      HexDigit(u % 0x10)]
  }

  /** The escape of one code unit that is not part of a surrogate pair. */
  function EscapeUnit(u: Unit): Text {
    if u == 0x08 then [BACKSLASH, 0x62]
    else if u == 0x09 then [BACKSLASH, 0x74]
    else if u == 0x0A then [BACKSLASH, 0x6E]
    else if u == 0x0C then [BACKSLASH, 0x66]
    else if u == 0x0D then [BACKSLASH, 0x72]
    else if u == QUOTE || u == BACKSLASH then [BACKSLASH, u]
    else if u < 0x20 || IsHigh(u) || IsLow(u) then HexEscape(u)
    else [u]
  }

  function Escape(s: Text): Text {
    if s == [] then []
    else if |s| > 1 && IsHigh(s[0]) && IsLow(s[1]) then [s[0], s[1]] + Escape(s[2..])
    else EscapeUnit(s[0]) + Escape(s[1..])
  }

  function Quote(s: Text): Text { [QUOTE] + Escape(s) + [QUOTE] }

  function HexValue(u: Unit): Option<nat> {
    if 0x30 <= u <= 0x39 then Some(u - 0x30)
    else if 0x61 <= u <= 0x66 then Some(u - 0x57)
    else None
  }

  /** Reads one possibly escaped code unit; an unescaped quotation mark is not one. */
  function ReadUnit(t: Text): (r: Option<(Unit, Text)>)
    ensures r.Some? ==> |r.value.1| < |t|
  {
    if t == [] || t[0] == QUOTE then None
    else if t[0] != BACKSLASH then Some((t[0], t[1..]))
    else if |t| < 2 then None
    else if t[1] == 0x62 then Some((0x08, t[2..]))
    else if t[1] == 0x74 then Some((0x09, t[2..]))
    else if t[1] == 0x6E then Some((0x0A, t[2..]))
    else if t[1] == 0x66 then Some((0x0C, t[2..]))
    else if t[1] == 0x72 then Some((0x0D, t[2..]))
    else if t[1] == QUOTE || t[1] == BACKSLASH then Some((t[1], t[2..]))
    else if t[1] != LOWER_U || |t| < 6 then None
    else
      match (HexValue(t[2]), HexValue(t[3]), HexValue(t[4]), HexValue(t[5]))
      case (Some(a), Some(b), Some(c), Some(d)) =>
        var u := a * 0x1000 + b * 0x100 + c * 0x10 + d;
        if u < 0x1_0000 then Some((u, t[6..])) else None
      case _ => None
  }

  /** Reads string contents up to the closing quotation mark, which it drops. */
  function ReadString(t: Text): Option<(Text, Text)>
    decreases |t|
  {
    if t != [] && t[0] == QUOTE then Some(([], t[1..]))
    else
      match ReadUnit(t)
      case None => None
      case Some((u, rest)) =>
        match ReadString(rest)
        case None => None
        case Some((us, rest')) => Some(([u] + us, rest'))
  }

  lemma HexDigitReadsBack(n: int)
    requires 0 <= n < 16
    ensures HexValue(HexDigit(n)) == Some(n)
  {
  }

  lemma HexPlaces(u: Unit)
    ensures u == u / 0x1000 * 0x1000 + u / 0x100 % 0x10 * 0x100 + u / 0x10 % 0x10 * 0x10 + u % 0x10
    ensures u / 0x1000 < 0x10
  {
  }

  lemma ReadHexEscape(u: Unit, rest: Text)
    ensures ReadUnit(HexEscape(u) + rest) == Some((u, rest))
  {
    HexPlaces(u);
    var (a, b, c, d) := (u / 0x1000, u / 0x100 % 0x10, u / 0x10 % 0x10, u % 0x10);
    HexDigitReadsBack(a);
    HexDigitReadsBack(b);
    HexDigitReadsBack(c);
    HexDigitReadsBack(d);
    var t := [BACKSLASH, LOWER_U, HexDigit(a), HexDigit(b), HexDigit(c), HexDigit(d)] + rest;
    assert t[6..] == rest;
    hide HexDigit, HexValue;
  }

  lemma ReadPlainUnit(u: Unit, rest: Text)
    requires u != QUOTE && u != BACKSLASH
    ensures ReadUnit([u] + rest) == Some((u, rest))
  {
    assert ([u] + rest)[1..] == rest;
  }

  lemma ReadShortEscape(code: Unit, u: Unit, rest: Text)
    requires (code, u) in [(0x62, 0x08), (0x74, 0x09), (0x6E, 0x0A), (0x66, 0x0C), (0x72, 0x0D), (QUOTE, QUOTE),
      (BACKSLASH, BACKSLASH)]
    ensures ReadUnit([BACKSLASH, code] + rest) == Some((u, rest))
  {
    assert ([BACKSLASH, code] + rest)[2..] == rest;
  }

  lemma ReadUnitEscape(u: Unit, rest: Text)
    ensures ReadUnit(EscapeUnit(u) + rest) == Some((u, rest))
  {
    hide ReadUnit, HexEscape;
    var e := EscapeUnit(u);
    if e == HexEscape(u) {
      ReadHexEscape(u, rest);
    } else if |e| == 1 {
      ReadPlainUnit(u, rest);
    } else {
      ReadShortEscape(e[1], u, rest);
    }
  }

  lemma ReadStep(t: Text, u: Unit, next: Text, us: Text, rest: Text)
    requires ReadUnit(t) == Some((u, next)) && ReadString(next) == Some((us, rest))
    ensures ReadString(t) == Some(([u] + us, rest))
  {
    assert t != [] && t[0] != QUOTE;
    hide ReadUnit;
  }

  /** Reading undoes escaping, for every string and whatever follows its closing quotation mark. */
  lemma {:induction false} ReadStringEscape(s: Text, rest: Text)
    ensures ReadString(Escape(s) + [QUOTE] + rest) == Some((s, rest))
    decreases |s|
  {
    var t := Escape(s) + [QUOTE] + rest;
    if s == [] {
      assert t[1..] == rest;
    } else {
      hide ReadString, ReadUnit, EscapeUnit;
      if |s| > 1 && IsHigh(s[0]) && IsLow(s[1]) {
        ReadStringEscape(s[2..], rest);
        ReadPair(s[0], s[1], Escape(s[2..]) + [QUOTE] + rest, s[2..], rest);
        Reassociate(s[0], s[1], Escape(s[2..]), rest);
        assert s == [s[0]] + ([s[1]] + s[2..]);
      } else {
        ReadStringEscape(s[1..], rest);
        var tail := Escape(s[1..]) + [QUOTE] + rest;
        ReadUnitEscape(s[0], tail);
        ReadStep(EscapeUnit(s[0]) + tail, s[0], tail, s[1..], rest);
        Regroup(EscapeUnit(s[0]), Escape(s[1..]), [QUOTE], rest);
        assert tail == Escape(s[1..]) + ([QUOTE] + rest);
        assert s == [s[0]] + s[1..];
      }
    }
  }

  lemma Reassociate(high: Unit, low: Unit, e: Text, rest: Text)
    ensures [high, low] + e + [QUOTE] + rest == [high] + ([low] + (e + [QUOTE] + rest))
  {
  }

  lemma ReadPair(high: Unit, low: Unit, tail: Text, us: Text, rest: Text)
    requires IsHigh(high) && IsLow(low) && ReadString(tail) == Some((us, rest))
    ensures ReadString([high] + ([low] + tail)) == Some(([high] + ([low] + us), rest))
  {
    hide ReadString, ReadUnit;
    ReadPlainUnit(low, tail);
    ReadStep([low] + tail, low, tail, us, rest);
    ReadPlainUnit(high, [low] + tail);
    ReadStep([high] + ([low] + tail), high, [low] + tail, [low] + us, rest);
  }

  lemma ReadQuote(s: Text, rest: Text)
    ensures |Quote(s) + rest| >= 2 && (Quote(s) + rest)[0] == QUOTE
    ensures ReadString((Quote(s) + rest)[1..]) == Some((s, rest))
  {
    ReadStringEscape(s, rest);
    var e := Escape(s);
    assert ([QUOTE] + e + [QUOTE] + rest)[1..] == e + [QUOTE] + rest;
  }

  lemma QuotePrefixFree(s: Text, s': Text, rest: Text, rest': Text)
    requires Quote(s) + rest == Quote(s') + rest'
    ensures s == s' && rest == rest'
  {
    ReadQuote(s, rest);
    ReadQuote(s', rest');
    var a, b := Some((s, rest)), Some((s', rest'));
    assert a == b;
  }

  // ---------------------------------------------------------------- numbers

  /**
   A finite number as its shortest decimal form: the digits d1...dk read as 0.d1...dk times ten to
   the power `point`. Negative zero prints like zero and is not told apart from it.
   */
  datatype Number = Zero | Decimal(negative: bool, digits: seq<Digit>, point: int)

  predicate ShortestForm(n: Number) {
    n.Decimal? ==> n.digits != [] && n.digits[0] != 0 && n.digits[|n.digits| - 1] != 0
  }

  function DigitUnit(d: Digit): Unit { 0x30 + d }

  function Ascii(ds: seq<Digit>): (t: Text)
    ensures |t| == |ds|
  {
    seq<Unit>(|ds|, i requires 0 <= i < |ds| => DigitUnit(ds[i]))
  }

  function Magnitude(n: int): nat { if n < 0 then -n else n }

  function ExponentText(e: int): Text {
    [LOWER_E, if e < 0 then MINUS else 0x2B] + Ascii(Digits(Magnitude(e)))
  }

  /** Number::toString for a positive number. */
  function PositiveText(ds: seq<Digit>, point: int): (t: Text)
    requires ds != []
  {
    if |ds| <= point <= 21 then Ascii(ds + Zeros(point - |ds|))
    else if 0 < point <= 21 then Ascii(ds[..point]) + [POINT] + Ascii(ds[point..])
    else if -6 < point <= 0 then Ascii([0]) + [POINT] + Ascii(Zeros(-point) + ds)
    else if |ds| == 1 then Ascii(ds) + ExponentText(point - 1)
    else Ascii(ds[..1]) + [POINT] + Ascii(ds[1..]) + ExponentText(point - 1)
  }

  function NumberText(n: Number): Text
    requires ShortestForm(n)
  {
    match n
    case Zero => Ascii([0])
    case Decimal(negative, ds, point) => (if negative then [MINUS] else []) + PositiveText(ds, point)
  }

  predicate IsDigit(u: Unit) { 0x30 <= u <= 0x39 }

  function ReadDigits(t: Text): (r: (seq<Digit>, Text))
    ensures |r.0| + |r.1| == |t|
  {
    if t == [] || !IsDigit(t[0]) then ([], t)
    else var (ds, rest) := ReadDigits(t[1..]); ([t[0] - 0x30] + ds, rest)
  }

  function ReadExponent(t: Text): (int, Text) {
    if |t| >= 2 && t[0] == LOWER_E then
      var (ds, rest) := ReadDigits(t[2..]);
      var size: int := Value(ds);
      (if t[1] == MINUS then -size else size, rest)
    else (0, t)
  }

  function DropTrailingZeros(ds: seq<Digit>): seq<Digit> {
    if ds != [] && ds[|ds| - 1] == 0 then DropTrailingZeros(ds[..|ds| - 1]) else ds
  }

  /** The number with decimal digits `ds` and the decimal point after the first `point` of them. */
  function Shortest(negative: bool, ds: seq<Digit>, point: int): Number {
    if ds == [] then Zero
    else if ds[0] == 0 then Shortest(negative, ds[1..], point - 1)
    else Decimal(negative, DropTrailingZeros(ds), point)
  }

  function ReadPositive(negative: bool, t: Text): (Number, Text) {
    var (whole, afterWhole) := ReadDigits(t);
    var (fraction, afterFraction) :=
      if afterWhole != [] && afterWhole[0] == POINT then ReadDigits(afterWhole[1..]) else ([], afterWhole);
    var (exponent, rest) := ReadExponent(afterFraction);
    (Shortest(negative, whole + fraction, |whole| + exponent), rest)
  }

  function ReadNumber(t: Text): (Number, Text) {
    if t != [] && t[0] == MINUS then ReadPositive(true, t[1..]) else ReadPositive(false, t)
  }

  /** What may follow a value inside an array or an object, or the end of the text. */
  predicate Delimited(rest: Text) {
    rest == [] || rest[0] == COMMA || rest[0] == CLOSE_BRACKET || rest[0] == CLOSE_BRACE
  }

  predicate NoDigitFirst(rest: Text) { rest == [] || !IsDigit(rest[0]) }

  lemma {:induction false} ReadDigitsAscii(ds: seq<Digit>, rest: Text)
    requires NoDigitFirst(rest)
    ensures ReadDigits(Ascii(ds) + rest) == (ds, rest)
    decreases |ds|
  {
    if ds == [] {
      assert Ascii(ds) + rest == rest;
    } else {
      ReadDigitsAscii(ds[1..], rest);
      assert Ascii(ds) == [DigitUnit(ds[0])] + Ascii(ds[1..]);
      assert (Ascii(ds) + rest)[1..] == Ascii(ds[1..]) + rest;
      assert ds == [ds[0]] + ds[1..];
    }
  }

  lemma ReadExponentText(e: int, rest: Text)
    requires NoDigitFirst(rest)
    ensures ReadExponent(ExponentText(e) + rest) == (e, rest)
  {
    var ds := Digits(Magnitude(e));
    ReadDigitsAscii(ds, rest);
    ValueOfDigits(Magnitude(e));
    assert (ExponentText(e) + rest)[2..] == Ascii(ds) + rest;
  }

  lemma NothingToDrop(negative: bool, ds: seq<Digit>, point: int)
    requires ds != [] && ds[0] != 0 && ds[|ds| - 1] != 0
    ensures Shortest(negative, ds, point) == Decimal(negative, ds, point)
  {
  }

  lemma {:induction false} DropAppendedZeros(ds: seq<Digit>, n: nat)
    requires ds != [] && ds[|ds| - 1] != 0
    ensures DropTrailingZeros(ds + Zeros(n)) == ds
    decreases n
  {
    if n == 0 {
      assert ds + Zeros(0) == ds;
    } else {
      assert (ds + Zeros(n))[..|ds| + n - 1] == ds + Zeros(n - 1);
      DropAppendedZeros(ds, n - 1);
    }
  }

  lemma {:induction false} ShortestDropsPrependedZeros(negative: bool, n: nat, ds: seq<Digit>, point: int)
    ensures Shortest(negative, Zeros(n) + ds, point) == Shortest(negative, ds, point - n)
    decreases n
  {
    if n == 0 {
      assert Zeros(0) + ds == ds;
    } else {
      assert (Zeros(n) + ds)[1..] == Zeros(n - 1) + ds;
      ShortestDropsPrependedZeros(negative, n - 1, ds, point - 1);
    }
  }

  /** The parts of a printed number put together. */
  function Layout(whole: seq<Digit>, fraction: seq<Digit>, exponent: Text): Text {
    Ascii(whole) + (if fraction == [] then [] else [POINT] + Ascii(fraction)) + exponent
  }

  /** Reading whole, fraction and exponent parts when each is present as described. */
  lemma ReadPositiveParts(negative: bool, whole: seq<Digit>, fraction: seq<Digit>, exponent: Text, rest: Text)
    requires NoDigitFirst(exponent + rest)
    requires fraction == [] ==> exponent + rest == [] || (exponent + rest)[0] != POINT
    ensures ReadPositive(negative, Layout(whole, fraction, exponent) + rest)
         == var (e, r) := ReadExponent(exponent + rest); (Shortest(negative, whole + fraction, |whole| + e), r)
  {
    hide Ascii, ReadExponent, Shortest, ReadDigits;
    var t := Layout(whole, fraction, exponent) + rest;
    if fraction == [] {
      assert t == Ascii(whole) + (exponent + rest);
      ReadDigitsAscii(whole, exponent + rest);
    } else {
      var tail := [POINT] + (Ascii(fraction) + (exponent + rest));
      assert t == Ascii(whole) + tail;
      ReadDigitsAscii(whole, tail);
      assert tail[1..] == Ascii(fraction) + (exponent + rest);
      ReadDigitsAscii(fraction, exponent + rest);
    }
  }

  /** The layout chosen for each magnitude. */
  lemma PositiveLayout(ds: seq<Digit>, point: int)
    requires ds != []
    ensures PositiveText(ds, point)
      == if |ds| <= point <= 21 then Layout(ds + Zeros(point - |ds|), [], [])
         else if 0 < point <= 21 then Layout(ds[..point], ds[point..], [])
         else if -6 < point <= 0 then Layout([0], Zeros(-point) + ds, [])
         else Layout(ds[..1], ds[1..], ExponentText(point - 1))
  {
    hide Ascii, ExponentText;
    if |ds| == 1 { assert ds[..1] == ds; }
  }

  lemma NoExponent(rest: Text)
    requires Delimited(rest)
    ensures [] + rest == rest && ReadExponent(rest) == (0, rest) && NoDigitFirst(rest)
      && (rest == [] || rest[0] != POINT)
  {
  }

  lemma ExponentComesFirst(e: int, rest: Text)
    requires Delimited(rest)
    ensures NoDigitFirst(rest) && NoDigitFirst(ExponentText(e) + rest)
    ensures ExponentText(e) + rest != [] && (ExponentText(e) + rest)[0] != POINT
  {
  }

  lemma ReadWholeNumber(negative: bool, ds: seq<Digit>, point: int, rest: Text)
    requires ds != [] && ds[0] != 0 && ds[|ds| - 1] != 0 && Delimited(rest)
    requires |ds| <= point <= 21
    ensures ReadPositive(negative, PositiveText(ds, point) + rest) == (Decimal(negative, ds, point), rest)
  {
    hide PositiveText, Layout, ReadPositive, ReadExponent, NoDigitFirst, DropTrailingZeros;
    var all := ds + Zeros(point - |ds|);
    PositiveLayout(ds, point);
    NoExponent(rest);
    ReadPositiveParts(negative, all, [], [], rest);
    DropAppendedZeros(ds, point - |ds|);
    assert all + [] == all && all[0] == ds[0];
  }

  lemma ReadMixedNumber(negative: bool, ds: seq<Digit>, point: int, rest: Text)
    requires ds != [] && ds[0] != 0 && ds[|ds| - 1] != 0 && Delimited(rest)
    requires 0 < point <= 21 && point < |ds|
    ensures ReadPositive(negative, PositiveText(ds, point) + rest) == (Decimal(negative, ds, point), rest)
  {
    hide PositiveText, Layout, ReadPositive, ReadExponent, NoDigitFirst, Shortest;
    PositiveLayout(ds, point);
    NoExponent(rest);
    ReadPositiveParts(negative, ds[..point], ds[point..], [], rest);
    assert ds[..point] + ds[point..] == ds;
    NothingToDrop(negative, ds, point);
  }

  lemma ReadSmallNumber(negative: bool, ds: seq<Digit>, point: int, rest: Text)
    requires ds != [] && ds[0] != 0 && ds[|ds| - 1] != 0 && Delimited(rest)
    requires -6 < point <= 0
    ensures ReadPositive(negative, PositiveText(ds, point) + rest) == (Decimal(negative, ds, point), rest)
  {
    hide PositiveText, Layout, ReadPositive, ReadExponent, NoDigitFirst, Shortest;
    var fraction := Zeros(-point) + ds;
    PositiveLayout(ds, point);
    NoExponent(rest);
    ReadPositiveParts(negative, [0], fraction, [], rest);
    assert [0] + fraction == Zeros(1 - point) + ds;
    ShortestDropsPrependedZeros(negative, 1 - point, ds, 1);
    NothingToDrop(negative, ds, point);
  }

  lemma ReadScientificNumber(negative: bool, ds: seq<Digit>, point: int, rest: Text)
    requires ds != [] && ds[0] != 0 && ds[|ds| - 1] != 0 && Delimited(rest)
    requires point <= -6 || point > 21
    ensures ReadPositive(negative, PositiveText(ds, point) + rest) == (Decimal(negative, ds, point), rest)
  {
    hide *;
    var exponent := ExponentText(point - 1);
    ExponentComesFirst(point - 1, rest);
    PositiveLayout(ds, point);
    ReadExponentText(point - 1, rest);
    ReadPositiveParts(negative, ds[..1], ds[1..], exponent, rest);
    assert ds[..1] + ds[1..] == ds;
    NothingToDrop(negative, ds, point);
  }

  lemma ReadPositiveText(negative: bool, ds: seq<Digit>, point: int, rest: Text)
    requires ds != [] && ds[0] != 0 && ds[|ds| - 1] != 0 && Delimited(rest)
    ensures ReadPositive(negative, PositiveText(ds, point) + rest) == (Decimal(negative, ds, point), rest)
  {
    hide ReadPositive, PositiveText;
    if |ds| <= point <= 21 {
      ReadWholeNumber(negative, ds, point, rest);
    } else if 0 < point <= 21 {
      ReadMixedNumber(negative, ds, point, rest);
    } else if -6 < point <= 0 {
      ReadSmallNumber(negative, ds, point, rest);
    } else {
      ReadScientificNumber(negative, ds, point, rest);
    }
  }

  lemma ReadZero(rest: Text)
    requires Delimited(rest)
    ensures ReadNumber(NumberText(Zero) + rest) == (Zero, rest)
  {
    NoExponent(rest);
    ReadPositiveParts(false, [0], [], [], rest);
    assert NumberText(Zero) == Layout([0], [], []);
    assert [0] + [] == [0] && [0][1..] == [];
    hide Ascii, ReadPositive, Layout;
  }

  /** Reading undoes number printing in each of its four layouts. */
  lemma ReadNumberText(n: Number, rest: Text)
    requires ShortestForm(n) && Delimited(rest)
    ensures ReadNumber(NumberText(n) + rest) == (n, rest)
  {
    match n
    case Zero =>
      ReadZero(rest);
    case Decimal(negative, ds, point) =>
      ReadPositiveText(negative, ds, point, rest);
      PositiveStartsWithDigit(ds, point);
      hide ReadPositive, PositiveText;
      var t := PositiveText(ds, point) + rest;
      if negative {
        assert NumberText(n) + rest == [MINUS] + t;
        assert ([MINUS] + t)[1..] == t;
      } else {
        assert NumberText(n) + rest == t;
      }
  }

  lemma PositiveStartsWithDigit(ds: seq<Digit>, point: int)
    requires ds != []
    ensures PositiveText(ds, point) != [] && IsDigit(PositiveText(ds, point)[0])
  {
  }

  // ---------------------------------------------------------------- key order

  /** The default order of Array.prototype.sort on strings: by code units, a prefix first. */
  predicate Before(a: Text, b: Text) {
    a == [] || (b != [] && (a[0] < b[0] || (a[0] == b[0] && Before(a[1..], b[1..]))))
  }

  lemma {:induction false} BeforeAntisymmetric(a: Text, b: Text)
    requires Before(a, b) && Before(b, a)
    ensures a == b
  {
    if a != [] {
      BeforeAntisymmetric(a[1..], b[1..]);
      assert a == [a[0]] + a[1..] && b == [b[0]] + b[1..];
    }
  }

  lemma {:induction false} BeforeTransitive(a: Text, b: Text, c: Text)
    requires Before(a, b) && Before(b, c)
    ensures Before(a, c)
  {
    if a != [] && a[0] == b[0] && b[0] == c[0] {
      BeforeTransitive(a[1..], b[1..], c[1..]);
    }
  }

  lemma {:induction false} BeforeTotal(a: Text, b: Text)
    ensures Before(a, b) || Before(b, a)
  {
    if a != [] && b != [] && a[0] == b[0] {
      BeforeTotal(a[1..], b[1..]);
    }
  }

  lemma BeforeIsTotalOrder()
    ensures TotalOrder(Before)
  {
    forall a, b ensures Before(a, b) || Before(b, a) { BeforeTotal(a, b); }
    forall a, b, c | Before(a, b) && Before(b, c) ensures Before(a, c) { BeforeTransitive(a, b, c); }
  }

  lemma SortedHead(a: seq<Text>, b: seq<Text>)
    requires SortedBy(Before, a) && SortedBy(Before, b) && a != [] && b != []
    requires a[0] in b && b[0] in a
    ensures a[0] == b[0]
  {
    var i :| 0 <= i < |b| && b[i] == a[0];
    var j :| 0 <= j < |a| && a[j] == b[0];
    if i > 0 && j > 0 {
      BeforeAntisymmetric(a[0], b[0]);
    }
  }

  lemma MultisetOfTail<T>(a: seq<T>)
    requires a != []
    ensures multiset(a[1..]) == multiset(a) - multiset{a[0]}
  {
    assert a == [a[0]] + a[1..];
  }

  lemma {:induction false} SortedIsDetermined(a: seq<Text>, b: seq<Text>)
    requires SortedBy(Before, a) && SortedBy(Before, b) && multiset(a) == multiset(b)
    ensures a == b
  {
    SameElements(a, b);
    if a != [] {
      SortedHead(a, b);
      MultisetOfTail(a);
      MultisetOfTail(b);
      SortedIsDetermined(a[1..], b[1..]);
      assert a == [a[0]] + a[1..] && b == [b[0]] + b[1..];
    }
  }

  // ---------------------------------------------------------------- values

  datatype Member = Member(key: Text, value: Json)

  /** NonFinite stands for NaN and the infinities, Unsupported for undefined, functions and symbols. */
  datatype Json =
    | Null
    | Bool(b: bool)
    | Num(number: Number)
    | NonFinite
    | Str(s: Text)
    | Array(items: seq<Json>)
    | Object(members: seq<Member>)
    | Unsupported

  function Keys(members: seq<Member>): (ks: seq<Text>)
    ensures |ks| == |members|
    ensures forall i :: 0 <= i < |ks| ==> ks[i] == members[i].key
  {
    seq(|members|, i requires 0 <= i < |members| => members[i].key)
  }

  /** An object has one value per key, a number its shortest form. */
  predicate WellFormed(v: Json) {
    match v
    case Num(n) => ShortestForm(n)
    case Array(items) => forall i :: 0 <= i < |items| ==> WellFormed(items[i])
    case Object(members) =>
      Distinct(Keys(members)) && forall i :: 0 <= i < |members| ==> WellFormed(members[i].value)
    case _ => true
  }

  predicate Supported(v: Json) {
    match v
    case Array(items) => forall i :: 0 <= i < |items| ==> Supported(items[i])
    case Object(members) => forall i :: 0 <= i < |members| ==> Supported(members[i].value)
    case Unsupported => false
    case _ => true
  }

  function IndexOf(members: seq<Member>, key: Text): (i: nat)
    requires key in Keys(members)
    ensures i < |members| && members[i].key == key
  {
    assert Keys(members) == [members[0].key] + Keys(members[1..]);
    if members[0].key == key then 0 else 1 + IndexOf(members[1..], key)
  }

  function SortedKeys(v: Json): (ks: seq<Text>)
    requires v.Object?
    ensures |ks| == |v.members|
    ensures forall k :: k in ks <==> k in Keys(v.members)
  {
    SameElements(SortBy(Before, Keys(v.members)), Keys(v.members));
    SortBy(Before, Keys(v.members))
  }

  function Render(v: Json): Text
    requires WellFormed(v) && Supported(v)
    decreases v, 1, 0
  {
    match v
    case Null => NULL_WORD
    case NonFinite => NULL_WORD
    case Bool(b) => if b then TRUE_WORD else FALSE_WORD
    case Num(n) => NumberText(n)
    case Str(s) => Quote(s)
    case Array(_) => [OPEN_BRACKET] + RenderItems(v, 0)
    case Object(_) => [OPEN_BRACE] + RenderMembers(v, SortedKeys(v), 0)
  }

  function Separator(i: nat): Text { if i == 0 then [] else [COMMA] }

  /** The items from index i on, each but the first preceded by a comma, and the closing bracket. */
  function RenderItems(v: Json, i: nat): Text
    requires WellFormed(v) && Supported(v) && v.Array? && i <= |v.items|
    decreases v, 0, |v.items| - i
  {
    if i == |v.items| then [CLOSE_BRACKET] else Separator(i) + Render(v.items[i]) + RenderItems(v, i + 1)
  }

  function RenderMembers(v: Json, ks: seq<Text>, i: nat): Text
    requires WellFormed(v) && Supported(v) && v.Object? && i <= |ks|
    requires forall k :: k in ks ==> k in Keys(v.members)
    decreases v, 0, |ks| - i
  {
    if i == |ks| then [CLOSE_BRACE]
    else
      var at := IndexOf(v.members, ks[i]);
      Separator(i) + Quote(ks[i]) + [COLON] + Render(v.members[at].value) + RenderMembers(v, ks, i + 1)
  }

  /** None is the TypeError thrown for a value, at any depth, that JSON cannot express. */
  function CanonicalText(v: Json): Option<Text>
    requires WellFormed(v)
  {
    if Supported(v) then Some(Render(v)) else None
  }

  // ---------------------------------------------------------------- sameness and the identity theorem

  /** Equality up to the order of object keys; JSON has no NaN or infinity and reads them as null. */
  ghost predicate Same(a: Json, b: Json)
    decreases a
  {
    match a
    case Null => b.Null? || b.NonFinite?
    case NonFinite => b.Null? || b.NonFinite?
    case Array(items) =>
      && b.Array? && |items| == |b.items|
      && forall i :: 0 <= i < |items| ==> Same(items[i], b.items[i])
    case Object(members) =>
      && b.Object? && |members| == |b.members|
      && forall i :: 0 <= i < |members| ==> HasMember(members[i], b.members)
    case Unsupported => false
    case _ => a == b
  }

  /** One of the members has the key, and a value that is the same. */
  ghost predicate HasMember(m: Member, members: seq<Member>)
    decreases m
  {
    exists j :: 0 <= j < |members| && members[j].key == m.key && Same(m.value, members[j].value)
  }

  predicate StartsLike(v: Json, u: Unit) {
    match v
    case Null => u == 0x6E
    case NonFinite => u == 0x6E
    case Bool(b) => u == if b then 0x74 else 0x66
    case Num(_) => u == MINUS || IsDigit(u)
    case Str(_) => u == QUOTE
    case Array(_) => u == OPEN_BRACKET
    case Object(_) => u == OPEN_BRACE
    case Unsupported => false
  }

  lemma FirstUnit(v: Json)
    requires WellFormed(v) && Supported(v)
    ensures Render(v) != [] && StartsLike(v, Render(v)[0])
  {
    match v
    case Num(n) => if n.Decimal? { PositiveStartsWithDigit(n.digits, n.point); }
    case _ =>
  }

  lemma Cancel(p: Text, x: Text, y: Text)
    requires p + x == p + y
    ensures x == y
  {
    assert (p + x)[|p|..] == x && (p + y)[|p|..] == y;
  }

  lemma Associate(a: Text, b: Text, x: Text)
    ensures a + b + x == a + (b + x)
  {
  }

  lemma Regroup(a: Text, b: Text, c: Text, x: Text)
    ensures a + b + c + x == a + (b + (c + x))
  {
  }

  lemma Regroup5(a: Text, b: Text, c: Text, d: Text, e: Text, x: Text)
    ensures a + b + c + d + e + x == a + (b + (c + (d + (e + x))))
  {
    Regroup(a, b, c, d + e + x);
    Associate(d, e, x);
    assert a + b + c + d + e + x == a + b + c + (d + e + x);
  }

  lemma FirstOfConcat(a: Text, x: Text)
    requires a != []
    ensures (a + x)[0] == a[0]
  {
  }

  lemma OpenArray(v: Json, x: Text)
    requires WellFormed(v) && Supported(v) && v.Array?
    ensures Render(v) + x == [OPEN_BRACKET] + (RenderItems(v, 0) + x)
  {
    Associate([OPEN_BRACKET], RenderItems(v, 0), x);
  }

  lemma OpenObject(v: Json, x: Text)
    requires WellFormed(v) && Supported(v) && v.Object?
    ensures Render(v) + x == [OPEN_BRACE] + (RenderMembers(v, SortedKeys(v), 0) + x)
  {
    Associate([OPEN_BRACE], RenderMembers(v, SortedKeys(v), 0), x);
  }

  lemma {:induction false} PrefixFree(a: Json, b: Json, x: Text, y: Text)
    requires WellFormed(a) && Supported(a) && WellFormed(b) && Supported(b)
    requires Delimited(x) && Delimited(y)
    requires Render(a) + x == Render(b) + y
    ensures Same(a, b) && x == y
    decreases a, 1, 0
  {
    FirstUnit(a);
    FirstUnit(b);
    FirstOfConcat(Render(a), x);
    FirstOfConcat(Render(b), y);
    match a
    case Num(n) =>
      ReadNumberText(n, x);
      ReadNumberText(b.number, y);
    case Str(s) =>
      QuotePrefixFree(s, b.s, x, y);
    case Array(_) =>
      OpenArray(a, x);
      OpenArray(b, y);
      Cancel([OPEN_BRACKET], RenderItems(a, 0) + x, RenderItems(b, 0) + y);
      ItemsPrefixFree(a, b, 0, x, y);
    case Object(_) =>
      var ka, kb := SortedKeys(a), SortedKeys(b);
      OpenObject(a, x);
      OpenObject(b, y);
      Cancel([OPEN_BRACE], RenderMembers(a, ka, 0) + x, RenderMembers(b, kb, 0) + y);
      MembersPrefixFree(a, b, ka, kb, 0, x, y);
      SameFromKeys(a, b);
    case Null => Cancel(NULL_WORD, x, y);
    case NonFinite => Cancel(NULL_WORD, x, y);
    case Bool(value) => Cancel(if value then TRUE_WORD else FALSE_WORD, x, y);
  }

  lemma DistinctIndex(members: seq<Member>, i: nat)
    requires i < |members| && Distinct(Keys(members))
    ensures members[i].key in Keys(members) && IndexOf(members, members[i].key) == i
  {
    hide Keys, IndexOf;
    assert Keys(members)[i] == members[i].key;
    var at := IndexOf(members, members[i].key);
    assert Keys(members)[at] == members[i].key;
  }

  lemma MatchingMember(a: Json, b: Json, i: nat) returns (j: nat)
    requires WellFormed(a) && WellFormed(b) && a.Object? && b.Object? && i < |a.members|
    requires SortedKeys(a) == SortedKeys(b)
    requires forall k :: k in SortedKeys(a) ==> Same(MemberValue(a, k), MemberValue(b, k))
    ensures j < |b.members| && b.members[j].key == a.members[i].key && Same(a.members[i].value, b.members[j].value)
  {
    var k := a.members[i].key;
    DistinctIndex(a.members, i);
    hide Same, WellFormed;
    assert k in SortedKeys(a) && k in SortedKeys(b);
    j := IndexOf(b.members, k);
    assert MemberValue(a, k) == a.members[i].value && MemberValue(b, k) == b.members[j].value;
  }

  lemma SameFromKeys(a: Json, b: Json)
    requires WellFormed(a) && WellFormed(b) && a.Object? && b.Object?
    requires SortedKeys(a) == SortedKeys(b)
    requires forall k :: k in SortedKeys(a) ==> Same(MemberValue(a, k), MemberValue(b, k))
    ensures Same(a, b)
  {
    hide WellFormed, MemberValue;
    assert |a.members| == |SortedKeys(a)| == |b.members|;
    forall i | 0 <= i < |a.members| ensures HasMember(a.members[i], b.members) {
      var j := MatchingMember(a, b, i);
    }
  }

  ghost predicate SameFrom(xs: seq<Json>, ys: seq<Json>, i: nat)
    requires |xs| == |ys|
  {
    forall j :: i <= j < |xs| ==> Same(xs[j], ys[j])
  }

  lemma SameFromEarlier(xs: seq<Json>, ys: seq<Json>, i: nat)
    requires |xs| == |ys| && i < |xs| && Same(xs[i], ys[i]) && SameFrom(xs, ys, i + 1)
    ensures SameFrom(xs, ys, i)
  {
  }

  lemma ItemsStep(v: Json, i: nat, x: Text)
    requires WellFormed(v) && Supported(v) && v.Array? && i < |v.items|
    ensures RenderItems(v, i) + x == Separator(i) + (Render(v.items[i]) + (RenderItems(v, i + 1) + x))
    ensures (RenderItems(v, i) + x)[0] != CLOSE_BRACKET
    ensures Delimited(RenderItems(v, i + 1) + x)
  {
    Regroup(Separator(i), Render(v.items[i]), RenderItems(v, i + 1), x);
    FirstUnit(v.items[i]);
  }

  lemma {:induction false} ItemsPrefixFree(a: Json, b: Json, i: nat, x: Text, y: Text)
    requires WellFormed(a) && Supported(a) && WellFormed(b) && Supported(b) && a.Array? && b.Array?
    requires i <= |a.items| && i <= |b.items|
    requires RenderItems(a, i) + x == RenderItems(b, i) + y
    ensures |a.items| == |b.items| && x == y
    ensures SameFrom(a.items, b.items, i)
    decreases a, 0, |a.items| - i
  {
    hide Same, Render, Separator;
    if i < |a.items| { ItemsStep(a, i, x); }
    if i < |b.items| { ItemsStep(b, i, y); }
    if i == |a.items| {
      Cancel([CLOSE_BRACKET], x, y);
    } else {
      var resta, restb := RenderItems(a, i + 1) + x, RenderItems(b, i + 1) + y;
      Cancel(Separator(i), Render(a.items[i]) + resta, Render(b.items[i]) + restb);
      PrefixFree(a.items[i], b.items[i], resta, restb);
      ItemsPrefixFree(a, b, i + 1, x, y);
      SameFromEarlier(a.items, b.items, i);
    }
  }

  function MemberValue(v: Json, k: Text): Json
    requires v.Object? && k in Keys(v.members)
  {
    v.members[IndexOf(v.members, k)].value
  }

  lemma MembersStep(v: Json, ks: seq<Text>, i: nat, x: Text)
    requires WellFormed(v) && Supported(v) && v.Object? && i < |ks|
    requires forall k :: k in ks ==> k in Keys(v.members)
    ensures WellFormed(MemberValue(v, ks[i])) && Supported(MemberValue(v, ks[i]))
    ensures RenderMembers(v, ks, i) + x
         == Separator(i)
           + (Quote(ks[i]) + ([COLON] + (Render(MemberValue(v, ks[i])) + (RenderMembers(v, ks, i + 1) + x))))
    ensures (RenderMembers(v, ks, i) + x)[0] != CLOSE_BRACE
    ensures Delimited(RenderMembers(v, ks, i + 1) + x)
  {
    var value := MemberValue(v, ks[i]);
    var tail := RenderMembers(v, ks, i + 1);
    Regroup5(Separator(i), Quote(ks[i]), [COLON], Render(value), tail, x);
  }

  lemma LongerPrefix<T>(s: seq<T>, t: seq<T>, i: nat)
    requires i < |s| && i < |t| && s[..i] == t[..i] && s[i] == t[i]
    ensures s[..i + 1] == t[..i + 1]
  {
    assert s[..i + 1] == s[..i] + [s[i]] && t[..i + 1] == t[..i] + [t[i]];
  }

  lemma {:induction false} MembersPrefixFree(a: Json, b: Json, ka: seq<Text>, kb: seq<Text>, i: nat, x: Text, y: Text)
    requires WellFormed(a) && Supported(a) && WellFormed(b) && Supported(b) && a.Object? && b.Object?
    requires i <= |ka| && i <= |kb| && ka[..i] == kb[..i]
    requires forall k :: k in ka ==> k in Keys(a.members)
    requires forall k :: k in kb ==> k in Keys(b.members)
    requires RenderMembers(a, ka, i) + x == RenderMembers(b, kb, i) + y
    ensures ka == kb && x == y
    ensures forall j :: i <= j < |ka| ==> Same(MemberValue(a, ka[j]), MemberValue(b, ka[j]))
    decreases a, 0, |ka| - i
  {
    if i < |ka| { MembersStep(a, ka, i, x); }
    if i < |kb| { MembersStep(b, kb, i, y); }
    if i == |ka| {
      Cancel([CLOSE_BRACE], x, y);
      assert ka == ka[..i] && kb == kb[..i];
    } else {
      var va, vb := MemberValue(a, ka[i]), MemberValue(b, kb[i]);
      var resta, restb := RenderMembers(a, ka, i + 1) + x, RenderMembers(b, kb, i + 1) + y;
      var qa, qb := [COLON] + (Render(va) + resta), [COLON] + (Render(vb) + restb);
      Cancel(Separator(i), Quote(ka[i]) + qa, Quote(kb[i]) + qb);
      QuotePrefixFree(ka[i], kb[i], qa, qb);
      Cancel([COLON], Render(va) + resta, Render(vb) + restb);
      PrefixFree(va, vb, resta, restb);
      LongerPrefix(ka, kb, i);
      MembersPrefixFree(a, b, ka, kb, i + 1, x, y);
      forall j | i <= j < |ka| ensures Same(MemberValue(a, ka[j]), MemberValue(b, ka[j])) {
        if j > i {
        }
      }
    }
  }

  lemma SameKeys(a: Json, b: Json)
    requires WellFormed(a) && WellFormed(b) && a.Object? && Same(a, b)
    ensures SortedKeys(a) == SortedKeys(b)
  {
    var ka, kb := Keys(a.members), Keys(b.members);
    forall k | k in ka ensures k in kb {
      var i :| 0 <= i < |ka| && ka[i] == k;
      var j :| 0 <= j < |b.members| && b.members[j].key == a.members[i].key;
      assert kb[j] == k;
    }
    DistinctSubsetIsPermutation(ka, kb);
    BeforeIsTotalOrder();
    SortBySorts(Before, ka);
    SortBySorts(Before, kb);
    SortedIsDetermined(SortBy(Before, ka), SortBy(Before, kb));
  }

  lemma WithoutMultiset<T>(b: seq<T>, j: nat)
    requires j < |b|
    ensures multiset(b[..j] + b[j + 1..]) == multiset(b) - multiset{b[j]}
  {
    assert b == b[..j] + [b[j]] + b[j + 1..];
  }

  lemma DistinctWithout<T>(b: seq<T>, j: nat)
    requires j < |b| && Distinct(b)
    ensures Distinct(b[..j] + b[j + 1..])
  {
  }

  lemma InWithout<T>(a: seq<T>, b: seq<T>, j: nat, x: T)
    requires Distinct(a) && a != [] && j < |b| && b[j] == a[0]
    requires x in a[1..] && (forall y :: y in a ==> y in b)
    ensures x in b[..j] + b[j + 1..]
  {
    var i :| 0 <= i < |a[1..]| && a[1..][i] == x;
    assert a[i + 1] == x && x != a[0];
    assert x in a && x in b;
    var m :| 0 <= m < |b| && b[m] == x;
    var b' := b[..j] + b[j + 1..];
    assert if m < j then b'[m] == x else b'[m - 1] == x;
  }

  lemma {:induction false} DistinctSubsetIsPermutation<T>(a: seq<T>, b: seq<T>)
    requires Distinct(a) && Distinct(b) && |a| == |b|
    requires forall x :: x in a ==> x in b
    ensures multiset(a) == multiset(b)
  {
    if a != [] {
      assert a[0] in a && a[0] in b;
      var j :| 0 <= j < |b| && b[j] == a[0];
      var b' := b[..j] + b[j + 1..];
      WithoutMultiset(b, j);
      MultisetOfTail(a);
      forall x | x in a[1..] ensures x in b' {
        InWithout(a, b, j, x);
      }
      DistinctWithout(b, j);
      DistinctSubsetIsPermutation(a[1..], b');
      assert multiset(a) == multiset(a[1..]) + multiset{a[0]};
      assert b[j] in multiset(b);
    }
  }

  lemma {:induction false} SameRendersSame(a: Json, b: Json)
    requires WellFormed(a) && Supported(a) && WellFormed(b) && Supported(b)
    requires Same(a, b)
    ensures Render(a) == Render(b)
    decreases a, 1, 0
  {
    match a
    case Array(_) => SameItems(a, b, 0);
    case Object(_) =>
      SameKeys(a, b);
      SameMembers(a, b, SortedKeys(a), 0);
    case _ =>
  }

  lemma {:induction false} SameItems(a: Json, b: Json, i: nat)
    requires WellFormed(a) && Supported(a) && WellFormed(b) && Supported(b)
    requires a.Array? && Same(a, b) && i <= |a.items|
    ensures RenderItems(a, i) == RenderItems(b, i)
    decreases a, 0, |a.items| - i
  {
    if i < |a.items| {
      SameRendersSame(a.items[i], b.items[i]);
      SameItems(a, b, i + 1);
    }
  }

  lemma {:induction false} SameMembers(a: Json, b: Json, ks: seq<Text>, i: nat)
    requires WellFormed(a) && Supported(a) && WellFormed(b) && Supported(b)
    requires a.Object? && Same(a, b) && i <= |ks|
    requires forall k :: k in ks ==> k in Keys(a.members) && k in Keys(b.members)
    ensures RenderMembers(a, ks, i) == RenderMembers(b, ks, i)
    decreases a, 0, |ks| - i
  {
    if i < |ks| {
      var ia, ib := IndexOf(a.members, ks[i]), IndexOf(b.members, ks[i]);
      var j :| 0 <= j < |b.members| && b.members[j].key == a.members[ia].key
        && Same(a.members[ia].value, b.members[j].value);
      assert Keys(b.members)[j] == ks[i] == Keys(b.members)[ib];
      assert j == ib;
      SameRendersSame(a.members[ia].value, b.members[ib].value);
      SameMembers(a, b, ks, i + 1);
    }
  }

  /** Two values have the same canonical text exactly when they are equal up to object key order. */
  lemma CanonicalTextIsIdentity(a: Json, b: Json)
    requires WellFormed(a) && WellFormed(b)
    requires CanonicalText(a).Some? && CanonicalText(b).Some?
    ensures CanonicalText(a) == CanonicalText(b) <==> Same(a, b)
  {
    if CanonicalText(a) == CanonicalText(b) {
      assert Render(a) + [] == Render(b) + [];
      PrefixFree(a, b, [], []);
    }
    if Same(a, b) {
      SameRendersSame(a, b);
    }
  }
}
