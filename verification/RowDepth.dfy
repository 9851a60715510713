/** Reading the depth of a table row from its level cell or its indent cell. */
module RowDepth {
  import opened Integers
  import opened Numerals
  import opened Options
  import opened Texts

  /** The digits at the start of a text. */
  function LeadingDigits(s: string): (ds: seq<Digit>)
    ensures |ds| <= |s|
    ensures |ds| == |s| <==> forall i :: 0 <= i < |s| ==> IsDigit(s[i])
  {
    if s == "" || !IsDigit(s[0]) then [] else [s[0] as int - '0' as int] + LeadingDigits(s[1..])
  }

  function Pow2(n: nat): nat { if n == 0 then 1 else 2 * Pow2(n - 1) }

  const MAX_DEPTH := 8

  /** A level cell is the letter L in either case and a whole number. */
  function LevelOf(cell: string): nat {
    if |cell| >= 2 && (cell[0] == 'L' || cell[0] == 'l') && |LeadingDigits(cell[1..])| == |cell| - 1
    then Value(LeadingDigits(cell[1..]))
    else 0
  }

  /** parseInt in base ten, with zero for anything unreadable, negative or too large for a finite number. */
  function IndentOf(cell: string): nat {
    var unsigned := if cell != "" && cell[0] == '+' then cell[1..] else cell;
    var n := Value(LeadingDigits(unsigned));
    if n < Pow2(1024) - Pow2(970) then n else 0
  }

  /** The depth of a row, from zero to eight; a missing cell reads as empty text, None stands for a missing column. */
  function ReadDepth(levelCell: Option<string>, indentCell: Option<string>): (depth: nat)
    ensures depth <= MAX_DEPTH
  {
    var level := if levelCell.None? then 0 else LevelOf(Trim(levelCell.value));
    if level > 0 then Min(MAX_DEPTH, level)
    else Min(MAX_DEPTH, (if indentCell.None? then 0 else IndentOf(Trim(indentCell.value))) / 2)
  }

  /** The level cell written for a row that carries a depth. */
  function LevelCell(depth: nat): string { "L" + AsText(Digits(depth)) }

  lemma {:induction false} LeadingDigitsOfChars(ds: seq<Digit>)
    ensures LeadingDigits(AsText(ds)) == ds
  {
    if ds != [] {
      assert AsText(ds)[1..] == AsText(ds[1..]);
      LeadingDigitsOfChars(ds[1..]);
      assert ds == [ds[0]] + ds[1..];
    }
  }

  /** A written depth reads back, up to the limit of eight, whatever the indent cell holds. */
  lemma WrittenDepthReadsBack(depth: nat, indentCell: Option<string>)
    requires depth > 0
    ensures ReadDepth(Some(LevelCell(depth)), indentCell) == Min(MAX_DEPTH, depth)
  {
    var cell := LevelCell(depth);
    var ds := Digits(depth);
    assert cell[1..] == AsText(ds);
    LeadingDigitsOfChars(ds);
    ValueOfDigits(depth);
    assert NoOuterSpace(cell) by {
      assert cell[|cell| - 1] == AsText(ds)[|ds| - 1];
    }
    TrimOfTrimmed(cell);
  }

  lemma FirstDigit(ds: seq<Digit>, rest: string)
    requires ds != []
    ensures LeadingDigits(AsText(ds) + rest) == [ds[0]] + LeadingDigits(AsText(ds[1..]) + rest)
  {
    var text := AsText(ds) + rest;
    assert text[0] == DigitChar(ds[0]);
    assert text[1..] == AsText(ds[1..]) + rest;
  }

  lemma {:induction false} LeadingDigitsThen(ds: seq<Digit>, rest: string)
    requires rest == "" || !IsDigit(rest[0])
    ensures LeadingDigits(AsText(ds) + rest) == ds
  {
    if ds == [] {
      assert AsText(ds) + rest == rest;
    } else {
      hide AsText, LeadingDigits;
      LeadingDigitsThen(ds[1..], rest);
      FirstDigit(ds, rest);
      assert ds == [ds[0]] + ds[1..];
    }
  }

  /** A level cell that names no level. */
  predicate NoLevel(cell: Option<string>) {
    cell.None? || (var c := Trim(cell.value);
      |c| < 2 || (c[0] != 'L' && c[0] != 'l') || exists i :: 1 <= i < |c| && !IsDigit(c[i]))
  }

  lemma NoLevelMeans(cell: Option<string>)
    ensures NoLevel(cell) && cell.Some? ==> LevelOf(Trim(cell.value)) == 0
  {
    if NoLevel(cell) && cell.Some? {
      var c := Trim(cell.value);
      if |c| >= 2 && (c[0] == 'L' || c[0] == 'l') {
        var i :| 1 <= i < |c| && !IsDigit(c[i]);
        assert c[1..][i - 1] == c[i];
      }
    }
  }

  function IndentCell(plus: bool, n: nat, rest: string): string { Signed(plus, AsText(Digits(n)) + rest) }

  function Signed(plus: bool, text: string): string { if plus then "+" + text else text }

  lemma SignedParts(plus: bool, text: string)
    requires text != "" && text[0] != '+' && !IsSpace(text[0]) && !IsSpace(text[|text| - 1])
    ensures var cell := Signed(plus, text);
      cell != "" && (if cell[0] == '+' then cell[1..] else cell) == text && NoOuterSpace(cell)
  {
    var cell := Signed(plus, text);
    if plus { assert cell[1..] == text; }
    assert cell[|cell| - 1] == text[|text| - 1];
  }

  lemma DigitsThen(n: nat, rest: string)
    requires NoOuterSpace(rest)
    ensures var text := AsText(Digits(n)) + rest;
      text != "" && text[0] != '+' && !IsSpace(text[0]) && !IsSpace(text[|text| - 1])
  {
    var (t, ds) := (AsText(Digits(n)), Digits(n));
    assert t[0] == DigitChar(ds[0]) && t[|t| - 1] == DigitChar(ds[|ds| - 1]);
    hide Digits, AsText;
    assert (t + rest)[0] == t[0];
    assert (t + rest)[|t + rest| - 1] == if rest == "" then t[|t| - 1] else rest[|rest| - 1];
  }

  /** Without a level, an indent cell holding n, with or without plus sign and unit, gives n halved, at most eight. */
  lemma IndentReads(levelCell: Option<string>, plus: bool, n: nat, rest: string)
    requires NoLevel(levelCell) && (rest == "" || !IsDigit(rest[0])) && NoOuterSpace(rest)
    ensures ReadDepth(levelCell, Some(IndentCell(plus, n, rest)))
         == if n < Pow2(1024) - Pow2(970) then Min(8, n / 2) else 0
  {
    hide Pow2, LeadingDigits, Signed, IsSpace, Trim, NoLevel, LevelOf, NoOuterSpace, Value, Digits, AsText;
    DigitsThen(n, rest);
    SignedParts(plus, AsText(Digits(n)) + rest);
    TrimOfTrimmed(IndentCell(plus, n, rest));
    LeadingDigitsThen(Digits(n), rest);
    ValueOfDigits(n);
    NoLevelMeans(levelCell);
  }

  /** A level cell naming a level gives it, at most eight, whatever the indent cell holds; level zero counts as none. */
  lemma LevelReads(cell: string, small: bool, ds: seq<Digit>, indentCell: Option<string>)
    requires ds != [] && Trim(cell) == (if small then "l" else "L") + AsText(ds)
    ensures ReadDepth(Some(cell), indentCell)
         == if Value(ds) > 0 then Min(8, Value(ds)) else ReadDepth(None, indentCell)
  {
    var c := Trim(cell);
    assert c[1..] == AsText(ds);
    LeadingDigitsOfChars(ds);
    hide Trim, LeadingDigits, Value, IndentOf;
  }

  predicate StartsNoNumber(c: string) {
    c == "" || (if c[0] == '+' then |c| == 1 || !IsDigit(c[1]) else !IsDigit(c[0]))
  }

  /** An indent cell that does not begin with a number, a sign apart, indents nothing. */
  lemma NoIndentReads(levelCell: Option<string>, cell: string)
    requires NoLevel(levelCell)
    requires StartsNoNumber(Trim(cell))
    ensures ReadDepth(levelCell, Some(cell)) == 0 == ReadDepth(levelCell, None)
  {
    NoLevelMeans(levelCell);
    hide Trim, NoLevel, LevelOf, Pow2;
    NothingLeads(Trim(cell));
  }

  lemma NothingLeads(c: string)
    requires StartsNoNumber(c)
    ensures IndentOf(c) == 0
  {
    var unsigned := if c != "" && c[0] == '+' then c[1..] else c;
    assert LeadingDigits(unsigned) == [];
    assert Value([]) == 0;
    hide Pow2, LeadingDigits;
  }
}
