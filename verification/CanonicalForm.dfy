/**
 How a canonical text is spelled: the literal words, the separators, the order of keys, the layout of a number and
 which code units of a string are escaped, each written out in code units.
 */
module CanonicalForm {
  import opened CanonicalJson
  import opened Numerals
  import opened Options
  import opened Sorting

  // ---------------------------------------------------------------- order of keys

  /** One text comes before another: it is a proper prefix, or has the smaller unit at the first difference. */
  ghost predicate Precedes(a: Text, b: Text) {
    || a < b
    || exists k: nat :: Differs(a, b, k) && a[k] < b[k]
  }

  predicate Differs(a: Text, b: Text, k: nat) { k < |a| && k < |b| && a[..k] == b[..k] && a[k] != b[k] }

  lemma DiffersLater(a: Text, b: Text, k: nat)
    requires a != [] && b != [] && a[0] == b[0]
    ensures Differs(a[1..], b[1..], k) <==> Differs(a, b, k + 1)
  {
    if k + 1 <= |a| && k + 1 <= |b| {
      assert a[..k + 1] == [a[0]] + a[1..][..k] && b[..k + 1] == [b[0]] + b[1..][..k];
    }
  }

  lemma PrefixLater(a: Text, b: Text)
    requires a != [] && b != [] && a[0] == b[0]
    ensures a[1..] < b[1..] <==> a < b
    ensures a[1..] == b[1..] <==> a == b
  {
    assert a == [a[0]] + a[1..] && b == [b[0]] + b[1..];
    if a < b { assert b[1..][..|a| - 1] == b[..|a|][1..]; }
    if a[1..] < b[1..] { assert b[..|a|] == [b[0]] + b[1..][..|a| - 1]; }
  }

  /** The comparison of keys is equality or the order by code units at the first difference. */
  lemma {:induction false} BeforeMeaning(a: Text, b: Text)
    ensures Before(a, b) <==> a == b || Precedes(a, b)
  {
    if a != [] && b != [] {
      if a[0] == b[0] {
        BeforeMeaning(a[1..], b[1..]);
        LaterPrecedes(a, b);
        PrefixLater(a, b);
      } else {
        FirstPrecedes(a, b);
      }
    }
  }

  lemma AgreeFirst(a: Text, b: Text, k: nat)
    requires 0 < k <= |a| && k <= |b| && a[..k] == b[..k]
    ensures a[0] == b[0]
  {
    assert a[..k][0] == b[..k][0];
  }

  lemma FirstPrecedes(a: Text, b: Text)
    requires a != [] && b != [] && a[0] != b[0]
    ensures Precedes(a, b) <==> a[0] < b[0]
  {
    assert Differs(a, b, 0);
    forall k: nat | Differs(a, b, k) ensures k == 0 {
      if k > 0 { AgreeFirst(a, b, k); }
    }
  }

  lemma LaterPrecedes(a: Text, b: Text)
    requires a != [] && b != [] && a[0] == b[0]
    ensures Precedes(a[1..], b[1..]) <==> Precedes(a, b)
  {
    PrefixLater(a, b);
    if k: nat :| Differs(a[1..], b[1..], k) && a[1..][k] < b[1..][k] {
      DiffersLater(a, b, k);
      assert a[k + 1] < b[k + 1];
    }
    if k: nat :| Differs(a, b, k) && a[k] < b[k] {
      if k > 0 {
        DiffersLater(a, b, k - 1);
        assert a[1..][k - 1] < b[1..][k - 1];
      }
    }
  }

  /** The keys of an object are printed in strictly ascending order of their code units, none left out. */
  lemma KeysAscend(v: Json)
    requires WellFormed(v) && v.Object?
    ensures var ks := SortedKeys(v);
      && multiset(ks) == multiset(Keys(v.members))
      && forall i, j :: 0 <= i < j < |ks| ==> Precedes(ks[i], ks[j])
  {
    var (ks, given) := (SortedKeys(v), Keys(v.members));
    BeforeIsTotalOrder();
    SortBySorts(Before, given);
    DistinctByMultiset(given, ks);
    forall i, j | 0 <= i < j < |ks| ensures Precedes(ks[i], ks[j]) {
      BeforeMeaning(ks[i], ks[j]);
    }
  }

  // ---------------------------------------------------------------- words, arrays and objects

  /** Texts one after the other with a comma between them. */
  function Joined(parts: seq<Text>): Text {
    if parts == [] then []
    else if |parts| == 1 then parts[0]
    else parts[0] + [0x2C] + Joined(parts[1..])
  }

  /** What is printed from a part on: a comma in front unless it is the first. */
  function JoinedFrom(parts: seq<Text>, i: nat): Text
    requires i <= |parts|
  {
    if i == |parts| || i == 0 then Joined(parts[i..]) else [0x2C] + Joined(parts[i..])
  }

  lemma JoinedUnfolds(parts: seq<Text>, i: nat)
    requires i < |parts|
    ensures Joined(parts[i..]) == if i + 1 == |parts| then parts[i] else parts[i] + [0x2C] + Joined(parts[i + 1..])
    ensures Joined(parts[|parts|..]) == []
  {
    assert parts[i..][1..] == parts[i + 1..] && parts[i..][0] == parts[i];
  }

  lemma JoinedStep(parts: seq<Text>, i: nat)
    requires i < |parts|
    ensures JoinedFrom(parts, i) == (if i == 0 then [] else [0x2C]) + parts[i] + JoinedFrom(parts, i + 1)
  {
    JoinedUnfolds(parts, i);
    hide Joined;
    var (comma, own, rest) := (if i == 0 then [] else [0x2C], parts[i], JoinedFrom(parts, i + 1));
    assert JoinedFrom(parts, i) == comma + Joined(parts[i..]);
    assert Joined(parts[i..]) == own + rest;
    Associate(comma, own, rest);
  }

  /** The canonical texts of the items of an array. */
  function ItemTexts(v: Json): (ts: seq<Text>)
    requires WellFormed(v) && Supported(v) && v.Array?
    ensures |ts| == |v.items|
    ensures forall i :: 0 <= i < |ts| ==> CanonicalText(v.items[i]) == Some(ts[i])
  {
    seq(|v.items|, i requires 0 <= i < |v.items| => Render(v.items[i]))
  }

  /** The text of a member: its quoted key, a colon and the text of its value. */
  ghost predicate MemberText(v: Json, k: Text, t: Text)
    requires WellFormed(v) && v.Object?
  {
    exists i :: 0 <= i < |v.members| && v.members[i].key == k && IsMember(v.members[i], t)
  }

  predicate IsMember(m: Member, t: Text) {
    && WellFormed(m.value) && CanonicalText(m.value).Some?
    && t == [0x22] + Escape(m.key) + [0x22, 0x3A] + CanonicalText(m.value).value
  }

  function TextOfMember(v: Json, k: Text): (t: Text)
    requires WellFormed(v) && Supported(v) && v.Object? && k in Keys(v.members)
    ensures MemberText(v, k, t)
  {
    var m := v.members[IndexOf(v.members, k)];
    assert Quote(k) + [COLON] + Render(m.value) == [0x22] + Escape(k) + [0x22, 0x3A] + Render(m.value);
    Quote(k) + [COLON] + Render(m.value)
  }

  function MemberTexts(v: Json, ks: seq<Text>): (ts: seq<Text>)
    requires WellFormed(v) && Supported(v) && v.Object?
    requires forall k :: k in ks ==> k in Keys(v.members)
    ensures |ts| == |ks|
  {
    seq(|ks|, i requires 0 <= i < |ks| => TextOfMember(v, ks[i]))
  }

  lemma {:induction false} ItemsAreJoined(v: Json, i: nat)
    requires WellFormed(v) && Supported(v) && v.Array? && i <= |v.items|
    ensures RenderItems(v, i) == JoinedFrom(ItemTexts(v), i) + [0x5D]
    decreases |v.items| - i
  {
    var ts := ItemTexts(v);
    if i < |v.items| {
      hide Render, JoinedFrom, WellFormed, Supported;
      ItemsAreJoined(v, i + 1);
      JoinedStep(ts, i);
      Reassociated(Separator(i), ts[i], JoinedFrom(ts, i + 1));
    }
  }

  lemma {:induction false} MembersAreJoined(v: Json, ks: seq<Text>, i: nat)
    requires WellFormed(v) && Supported(v) && v.Object? && i <= |ks|
    requires forall k :: k in ks ==> k in Keys(v.members)
    ensures RenderMembers(v, ks, i) == JoinedFrom(MemberTexts(v, ks), i) + [0x7D]
    decreases |ks| - i
  {
    hide *;
    var ts := MemberTexts(v, ks);
    if i == |ks| {
      NoMembersLeft(v, ks);
    } else {
      MembersAreJoined(v, ks, i + 1);
      JoinedStep(ts, i);
      RenderedMember(v, ks, i);
      SeparatorIs(i);
      Reassociated(Separator(i), ts[i], JoinedFrom(ts, i + 1));
    }
  }

  lemma SeparatorIs(i: nat)
    ensures Separator(i) == if i == 0 then [] else [0x2C]
  {
  }

  lemma NoMembersLeft(v: Json, ks: seq<Text>)
    requires WellFormed(v) && Supported(v) && v.Object?
    requires forall k :: k in ks ==> k in Keys(v.members)
    ensures RenderMembers(v, ks, |ks|) == JoinedFrom(MemberTexts(v, ks), |ks|) + [0x7D]
  {
    hide Render, MemberText, TextOfMember;
  }

  lemma RenderedMember(v: Json, ks: seq<Text>, i: nat)
    requires WellFormed(v) && Supported(v) && v.Object? && i < |ks|
    requires forall k :: k in ks ==> k in Keys(v.members)
    ensures RenderMembers(v, ks, i) == Separator(i) + MemberTexts(v, ks)[i] + RenderMembers(v, ks, i + 1)
  {
    hide Quote, Separator;
    var at := IndexOf(v.members, ks[i]);
    var (s, q, r) := (Separator(i), Quote(ks[i]), Render(v.members[at].value));
    assert s + (q + [COLON] + r) == s + q + [COLON] + r;
  }

  lemma Reassociated(a: Text, b: Text, c: Text)
    ensures a + b + (c + [0x5D]) == a + b + c + [0x5D]
    ensures a + b + (c + [0x7D]) == a + b + c + [0x7D]
  {
  }

  /** The text of every kind of value, written out in code units; numbers and strings are spelled out below. */
  lemma Spelling(v: Json)
    requires WellFormed(v) && Supported(v)
    ensures var t := CanonicalText(v);
      match v
      case Null => t == Some([0x6E, 0x75, 0x6C, 0x6C])
      case NonFinite => t == Some([0x6E, 0x75, 0x6C, 0x6C])
      case Bool(b) => t == Some(if b then [0x74, 0x72, 0x75, 0x65] else [0x66, 0x61, 0x6C, 0x73, 0x65])
      case Num(Zero) => t == Some([0x30])
      case Num(Decimal(negative, ds, point)) => t == Some((if negative then [0x2D] else []) + PositiveText(ds, point))
      case Str(s) => t == Some([0x22] + Escape(s) + [0x22])
      case Array(items) => t == Some([0x5B] + Joined(ItemTexts(v)) + [0x5D])
      case Object(_) => exists ts :: AllMembers(v, ts) && t == Some([0x7B] + Joined(ts) + [0x7D])
      case Unsupported => false
  {
    match v
    case Array(items) =>
      ItemsAreJoined(v, 0);
      var ts := ItemTexts(v);
      assert ts[0..] == ts;
      assert [0x5B] + (Joined(ts) + [0x5D]) == [0x5B] + Joined(ts) + [0x5D];
    case Object(_) =>
      var ts := MemberTexts(v, SortedKeys(v));
      MembersAreJoined(v, SortedKeys(v), 0);
      assert ts[0..] == ts;
      assert [0x7B] + (Joined(ts) + [0x7D]) == [0x7B] + Joined(ts) + [0x7D];
      assert AllMembers(v, ts);
    case Num(Zero) => assert Ascii([0]) == [0x30];
    case _ =>
  }

  /** One text for every member, in the order of the sorted keys. */
  ghost predicate AllMembers(v: Json, ts: seq<Text>)
    requires WellFormed(v) && v.Object?
  {
    && |ts| == |v.members|
    && forall i :: 0 <= i < |ts| ==> MemberText(v, SortedKeys(v)[i], ts[i])
  }

  // ---------------------------------------------------------------- strings

  /** The unit belongs to a surrogate pair: a high one followed by a low one. */
  predicate Paired(s: Text, i: nat)
    requires i < |s|
  {
    || (IsHigh(s[i]) && i + 1 < |s| && IsLow(s[i + 1]))
    || (IsLow(s[i]) && i > 0 && IsHigh(s[i - 1]))
  }

  predicate Plain(u: Unit) { u >= 0x20 && u != 0x22 && u != 0x5C }

  predicate Short(u: Unit) { u in {0x08, 0x09, 0x0A, 0x0C, 0x0D, 0x22, 0x5C} }

  /** The letter of a two-unit escape: b, t, n, f, r, or the unit itself. */
  function Letter(u: Unit): Unit {
    if u == 0x08 then 0x62 else if u == 0x09 then 0x74 else if u == 0x0A then 0x6E
    else if u == 0x0C then 0x66 else if u == 0x0D then 0x72 else u
  }

  /** What a unit of a string prints as, from the unit and its neighbours alone. */
  ghost predicate PrintsAs(s: Text, i: nat, t: Text)
    requires i < |s|
  {
    if Plain(s[i]) && (Paired(s, i) || !(0xD800 <= s[i] <= 0xDFFF)) then t == [s[i]]
    else if Short(s[i]) then t == [0x5C, Letter(s[i])]
    else
      && |t| == 6 && t[0] == 0x5C && t[1] == 0x75
      && (forall k :: 2 <= k < 6 ==> 0x30 <= t[k] <= 0x39 || 0x61 <= t[k] <= 0x66)
      && s[i] == Nibble(t[2]) * 0x1000 + Nibble(t[3]) * 0x100 + Nibble(t[4]) * 0x10 + Nibble(t[5])
  }

  /** The value of a digit or a lower-case letter in base sixteen. */
  function Nibble(u: Unit): int { if u <= 0x39 then u - 0x30 else u - 0x61 + 10 }

  /** The pieces put together are the escaped string. */
  function Glued(parts: seq<Text>): Text { if parts == [] then [] else parts[0] + Glued(parts[1..]) }

  function PieceAt(s: Text, i: nat): Text
    requires i < |s|
  {
    if Paired(s, i) then [s[i]] else EscapeUnit(s[i])
  }

  function Pieces(s: Text, i: nat): (parts: seq<Text>)
    requires i <= |s|
    ensures |parts| == |s| - i
    ensures forall k :: 0 <= k < |parts| ==> parts[k] == PieceAt(s, i + k)
    decreases |s| - i
  {
    if i == |s| then [] else [PieceAt(s, i)] + Pieces(s, i + 1)
  }

  lemma HexPrints(u: Unit)
    ensures var t := HexEscape(u);
      && |t| == 6 && t[0] == 0x5C && t[1] == 0x75
      && (forall k :: 2 <= k < 6 ==> 0x30 <= t[k] <= 0x39 || 0x61 <= t[k] <= 0x66)
      && u == Nibble(t[2]) * 0x1000 + Nibble(t[3]) * 0x100 + Nibble(t[4]) * 0x10 + Nibble(t[5])
  {
    HexPlaces(u);
    NibbleOf(u / 0x1000);
    NibbleOf(u / 0x100 % 0x10);
    NibbleOf(u / 0x10 % 0x10);
    NibbleOf(u % 0x10);
    hide HexDigit, Nibble;
  }

  lemma NibbleOf(n: int)
    requires 0 <= n < 16
    ensures Nibble(HexDigit(n)) == n && (0x30 <= HexDigit(n) <= 0x39 || 0x61 <= HexDigit(n) <= 0x66)
  {
  }

  lemma PiecePrints(s: Text, i: nat)
    requires i < |s|
    ensures PrintsAs(s, i, PieceAt(s, i))
  {
    HexPrints(s[i]);
    hide HexEscape, Nibble;
  }

  /** From a place that does not split a pair, the escape is the pieces put together. */
  lemma {:induction false} EscapeIsGlued(s: Text, i: nat)
    requires i <= |s| && Whole(s, i)
    ensures Escape(s[i..]) == Glued(Pieces(s, i))
    decreases |s| - i
  {
    hide *;
    if i == |s| {
      NothingGlued(s);
    } else if PairAt(s, i) {
      PairStep(s, i);
      EscapeIsGlued(s, i + 2);
    } else {
      UnitStep(s, i);
      EscapeIsGlued(s, i + 1);
    }
  }

  predicate PairAt(s: Text, i: nat)
    requires i < |s|
  {
    IsHigh(s[i]) && i + 1 < |s| && IsLow(s[i + 1])
  }

  /** The place is not between the two units of a pair. */
  predicate Whole(s: Text, i: nat)
    requires i <= |s|
  {
    0 < i < |s| ==> !PairAt(s, i - 1)
  }

  lemma NothingGlued(s: Text)
    ensures Escape(s[|s|..]) == Glued(Pieces(s, |s|))
  {
  }

  lemma PiecesStep(s: Text, i: nat)
    requires i < |s|
    ensures Pieces(s, i) == [PieceAt(s, i)] + Pieces(s, i + 1)
  {
    hide PieceAt;
  }

  lemma PairPieces(s: Text, i: nat)
    requires i < |s| && PairAt(s, i)
    ensures i + 2 <= |s| && Whole(s, i + 2) && PieceAt(s, i) == [s[i]] && PieceAt(s, i + 1) == [s[i + 1]]
  {
    hide EscapeUnit;
  }

  lemma PairStep(s: Text, i: nat)
    requires i < |s| && PairAt(s, i)
    ensures i + 2 <= |s| && Whole(s, i + 2)
    ensures Escape(s[i..]) == [s[i], s[i + 1]] + Escape(s[i + 2..])
    ensures Glued(Pieces(s, i)) == [s[i], s[i + 1]] + Glued(Pieces(s, i + 2))
  {
    hide *;
    PairPieces(s, i);
    EscapeStep(s, i);
    PiecesStep(s, i);
    PiecesStep(s, i + 1);
    GluedTwo([s[i]], [s[i + 1]], Pieces(s, i + 2));
  }

  lemma UnitStep(s: Text, i: nat)
    requires i < |s| && !PairAt(s, i) && Whole(s, i)
    ensures Whole(s, i + 1)
    ensures Escape(s[i..]) == EscapeUnit(s[i]) + Escape(s[i + 1..])
    ensures Glued(Pieces(s, i)) == EscapeUnit(s[i]) + Glued(Pieces(s, i + 1))
  {
    EscapeStep(s, i);
    hide Escape, EscapeUnit, Glued;
    assert PieceAt(s, i) == EscapeUnit(s[i]);
    GluedOne(EscapeUnit(s[i]), Pieces(s, i + 1));
  }

  lemma EscapeStep(s: Text, i: nat)
    requires i < |s|
    ensures if PairAt(s, i)
      then Escape(s[i..]) == [s[i], s[i + 1]] + Escape(s[i + 2..])
      else Escape(s[i..]) == EscapeUnit(s[i]) + Escape(s[i + 1..])
  {
    hide EscapeUnit;
    var t := s[i..];
    assert t[0] == s[i] && t[1..] == s[i + 1..];
    if i + 1 < |s| { assert t[1] == s[i + 1] && t[2..] == s[i + 2..]; }
  }

  lemma GluedOne(a: Text, rest: seq<Text>)
    ensures Glued([a] + rest) == a + Glued(rest)
  {
    assert ([a] + rest)[1..] == rest;
  }

  lemma GluedTwo(a: Text, b: Text, rest: seq<Text>)
    ensures Glued([a] + ([b] + rest)) == a + b + Glued(rest)
  {
    GluedOne(a, [b] + rest);
    GluedOne(b, rest);
    assert a + (b + Glued(rest)) == a + b + Glued(rest);
  }

  /**
   A string is printed unit by unit: pairs of surrogates and every other unit but the control codes, the quotation
   mark and the backslash print as themselves, seven units have a letter, the rest four digits.
   */
  lemma StringSpelling(s: Text)
    ensures exists parts ::
      && |parts| == |s| && (forall i :: 0 <= i < |s| ==> PrintsAs(s, i, parts[i]))
      && Escape(s) == Glued(parts)
  {
    var parts := Pieces(s, 0);
    EscapeIsGlued(s, 0);
    assert s[0..] == s;
    forall i | 0 <= i < |s| ensures PrintsAs(s, i, parts[i]) {
      PiecePrints(s, i);
    }
  }

  // ---------------------------------------------------------------- numbers

  /** Decimal digits as the code units of the characters 0 to 9. */
  predicate Spells(t: Text, ds: seq<Digit>) { |t| == |ds| && forall i :: 0 <= i < |t| ==> t[i] == 0x30 + ds[i] as int }

  lemma AsciiSpells(ds: seq<Digit>)
    ensures Spells(Ascii(ds), ds)
  {
  }

  lemma ConcatAt(a: Text, b: Text)
    ensures (a + b)[..|a|] == a && (a + b)[|a|..] == b
  {
  }

  /** Digits alone, with zeros up to the decimal point. */
  predicate WholeLayout(t: Text, ds: seq<Digit>, point: nat)
    requires |ds| <= point
  {
    |t| == point && Spells(t[..|ds|], ds) && forall i :: |ds| <= i < point ==> t[i] == 0x30
  }

  /** A point between the digits. */
  predicate PointLayout(t: Text, ds: seq<Digit>, point: nat)
    requires point <= |ds|
  {
    |t| == |ds| + 1 && Spells(t[..point], ds[..point]) && t[point] == 0x2E && Spells(t[point + 1..], ds[point..])
  }

  /** A zero, a point, the given number of zeros, and the digits. */
  predicate SmallLayout(t: Text, ds: seq<Digit>, zeros: nat) {
    && |t| == 2 + zeros + |ds| && t[0] == 0x30 && t[1] == 0x2E
    && (forall i :: 2 <= i < 2 + zeros ==> t[i] == 0x30) && Spells(t[2 + zeros..], ds)
  }

  /** The first digit, a point before further ones, the letter e, a sign and the size of the exponent. */
  predicate ExponentLayout(t: Text, ds: seq<Digit>, exponent: int)
    requires ds != []
  {
    var n := if |ds| == 1 then 1 else |ds| + 1;
    && |t| > n + 1 && Spells(t[..1], ds[..1]) && (|ds| > 1 ==> t[1] == 0x2E && Spells(t[2..n], ds[1..]))
    && t[n] == 0x65 && t[n + 1] == (if exponent < 0 then 0x2D else 0x2B)
    && Spells(t[n + 2..], Digits(if exponent < 0 then -exponent else exponent))
  }

  lemma WholeSpelling(ds: seq<Digit>, point: nat)
    requires ds != [] && |ds| <= point <= 21
    ensures WholeLayout(PositiveText(ds, point), ds, point)
  {
    var all := ds + Zeros(point - |ds|);
    AsciiSpells(all);
    assert PositiveText(ds, point) == Ascii(all);
    hide Ascii, PositiveText;
  }

  lemma PointSpelling(ds: seq<Digit>, point: nat)
    requires 0 < point <= 21 && point < |ds|
    ensures PointLayout(PositiveText(ds, point), ds, point)
  {
    var (whole, fraction) := (Ascii(ds[..point]), Ascii(ds[point..]));
    assert PositiveText(ds, point) == whole + [POINT] + fraction;
    hide Ascii, PositiveText;
    AsciiSpells(ds[..point]);
    AsciiSpells(ds[point..]);
    ConcatAt(whole + [POINT], fraction);
    ConcatAt(whole, [POINT] + fraction);
    assert whole + [POINT] + fraction == whole + ([POINT] + fraction);
  }

  lemma SmallSpelling(ds: seq<Digit>, point: int)
    requires ds != [] && -6 < point <= 0
    ensures SmallLayout(PositiveText(ds, point), ds, -point)
  {
    var fraction := Zeros(-point) + ds;
    assert PositiveText(ds, point) == Ascii([0]) + [POINT] + Ascii(fraction);
    hide Ascii, PositiveText;
    AsciiSpells([0]);
    AsciiSpells(fraction);
    ConcatAt(Ascii([0]) + [POINT], Ascii(fraction));
  }

  lemma ExponentSpelling(ds: seq<Digit>, point: int)
    requires ds != [] && (point <= -6 || point > 21)
    ensures ExponentLayout(PositiveText(ds, point), ds, point - 1)
  {
    var (e, size) := (ExponentText(point - 1), Digits(Magnitude(point - 1)));
    var mantissa := if |ds| == 1 then Ascii(ds) else Ascii(ds[..1]) + [POINT] + Ascii(ds[1..]);
    assert PositiveText(ds, point) == mantissa + e;
    assert e == [0x65, if point - 1 < 0 then 0x2D else 0x2B] + Ascii(size);
    hide Ascii, PositiveText, ExponentText, Digits;
    AsciiSpells(size);
    AsciiSpells(ds[..1]);
    AsciiSpells(ds[1..]);
    MantissaSpelling(ds, mantissa);
    ExponentParts(mantissa, e, Ascii(size), point - 1 < 0);
    hide *;
  }

  lemma ExponentParts(mantissa: Text, e: Text, size: Text, negative: bool)
    requires mantissa != [] && e == [0x65, if negative then 0x2D else 0x2B] + size
    ensures var (t, n) := (mantissa + e, |mantissa|);
      && t[..n] == mantissa && t[..1] == mantissa[..1] && (n > 1 ==> t[1] == mantissa[1] && t[2..n] == mantissa[2..])
      && t[n] == 0x65 && t[n + 1] == (if negative then 0x2D else 0x2B) && t[n + 2..] == size
  {
  }

  lemma MantissaSpelling(ds: seq<Digit>, mantissa: Text)
    requires ds != []
    requires mantissa == if |ds| == 1 then Ascii(ds) else Ascii(ds[..1]) + [POINT] + Ascii(ds[1..])
    ensures |mantissa| == (if |ds| == 1 then 1 else |ds| + 1) && Spells(mantissa[..1], ds[..1])
    ensures |ds| > 1 ==> mantissa[1] == 0x2E && Spells(mantissa[2..], ds[1..])
  {
    AsciiSpells(ds[..1]);
    AsciiSpells(ds[1..]);
    hide Ascii;
    if |ds| == 1 {
      assert ds[..1] == ds && mantissa[..1] == mantissa;
    } else {
      ConcatAt(Ascii(ds[..1]) + [POINT], Ascii(ds[1..]));
      ConcatAt(Ascii(ds[..1]), [POINT]);
      assert mantissa[..1] == Ascii(ds[..1]);
    }
  }

  /** Which layout a number takes by the place of its point, up to 21 digits before it and five zeros after it. */
  lemma NumberSpelling(ds: seq<Digit>, point: int)
    requires ds != []
    ensures var t := PositiveText(ds, point);
      if |ds| <= point <= 21 then WholeLayout(t, ds, point)
      else if 0 < point <= 21 then PointLayout(t, ds, point)
      else if -6 < point <= 0 then SmallLayout(t, ds, -point)
      else ExponentLayout(t, ds, point - 1)
  {
    hide *;
    if |ds| <= point <= 21 {
      WholeSpelling(ds, point);
    } else if 0 < point <= 21 {
      PointSpelling(ds, point);
    } else if -6 < point <= 0 {
      SmallSpelling(ds, point);
    } else {
      ExponentSpelling(ds, point);
    }
  }
}
