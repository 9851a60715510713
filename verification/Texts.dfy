/** Strings as the JavaScript sources measure and trim them. */
module Texts {

  /** The white space and line terminators that String.prototype.trim removes. */
  predicate IsSpace(c: char) {
    var u := c as int;
    (0x09 <= u <= 0x0D) || u == 0x20 || u == 0xA0 || u == 0x1680 || (0x2000 <= u <= 0x200A)
    || u == 0x2028 || u == 0x2029 || u == 0x202F || u == 0x205F || u == 0x3000 || u == 0xFEFF
  }

  predicate IsDigit(c: char) { '0' <= c <= '9' }

  /** A lower-case hexadecimal digit. */
  predicate IsHex(c: char) { IsDigit(c) || 'a' <= c <= 'f' }

  function TrimStart(s: string): string { if s != "" && IsSpace(s[0]) then TrimStart(s[1..]) else s }

  function TrimEnd(s: string): string {
    if s != "" && IsSpace(s[|s| - 1]) then TrimEnd(s[..|s| - 1]) else s
  }

  function Trim(s: string): string { TrimEnd(TrimStart(s)) }

  /** The length property of a string: code units, two for a character outside the basic plane. */
  function Utf16Length(s: string): nat {
    if s == "" then 0 else (if s[0] as int < 0x1_0000 then 1 else 2) + Utf16Length(s[1..])
  }

  /** The number of bytes TextEncoder produces. */
  function Utf8Length(s: string): nat {
    if s == "" then 0
    else
      var u := s[0] as int;
      (if u < 0x80 then 1 else if u < 0x800 then 2 else if u < 0x1_0000 then 3 else 4) + Utf8Length(s[1..])
  }

  predicate NoOuterSpace(s: string) { s != "" ==> !IsSpace(s[0]) && !IsSpace(s[|s| - 1]) }

  lemma {:induction false} TrimEndKeepsStart(s: string)
    requires s != "" && !IsSpace(s[0])
    ensures TrimEnd(s) != "" && TrimEnd(s)[0] == s[0] && !IsSpace(TrimEnd(s)[|TrimEnd(s)| - 1])
    decreases |s|
  {
    if IsSpace(s[|s| - 1]) {
      TrimEndKeepsStart(s[..|s| - 1]);
    }
  }

  lemma {:induction false} TrimStartLeavesNoSpace(s: string)
    ensures TrimStart(s) == "" || !IsSpace(TrimStart(s)[0])
  {
    if s != "" && IsSpace(s[0]) { TrimStartLeavesNoSpace(s[1..]); }
  }

  lemma TrimRemovesOuterSpace(s: string)
    ensures NoOuterSpace(Trim(s))
  {
    TrimStartLeavesNoSpace(s);
    if TrimStart(s) != "" { TrimEndKeepsStart(TrimStart(s)); }
  }

  lemma TrimOfTrimmed(s: string)
    requires NoOuterSpace(s)
    ensures Trim(s) == s
  {
  }

  /** Some character is not white space. */
  predicate HasVisible(s: string) { exists i :: 0 <= i < |s| && !IsSpace(s[i]) }

  /** Trimming leaves nothing exactly when there is nothing to see. */
  lemma {:induction false} TrimLeavesVisible(s: string)
    ensures Trim(s) != "" <==> HasVisible(s)
  {
    if s != "" {
      if IsSpace(s[0]) {
        TrimLeavesVisible(s[1..]);
        if HasVisible(s) {
          var i :| 0 <= i < |s| && !IsSpace(s[i]);
          assert s[1..][i - 1] == s[i];
        }
      } else {
        TrimEndKeepsStart(s);
      }
    }
  }

  lemma TrimTwice(s: string)
    ensures Trim(Trim(s)) == Trim(s)
  {
    TrimRemovesOuterSpace(s);
    TrimOfTrimmed(Trim(s));
  }
}
