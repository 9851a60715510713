/**
 The quoted CSV text of a worksheet file: every cell is printed in quotation marks, and a character scanner reads it
 back.
 */
module Csv {
  import opened Options

  type Row = seq<string>

  // ---------------------------------------------------------------- printing

  function Doubled(cell: string): string {
    if cell == "" then ""
    else (if cell[0] == '"' then "\"\"" else [cell[0]]) + Doubled(cell[1..])
  }

  function CsvCell(cell: string): string { "\"" + Doubled(cell) + "\"" }

  function RenderRow(row: Row): string {
    if row == [] then ""
    else if |row| == 1 then CsvCell(row[0])
    else CsvCell(row[0]) + "," + RenderRow(row[1..])
  }

  function RenderRows(rows: seq<Row>): string {
    if rows == [] then ""
    else if |rows| == 1 then RenderRow(rows[0])
    else RenderRow(rows[0]) + "\n" + RenderRows(rows[1..])
  }

  // ---------------------------------------------------------------- scanning

  datatype Scanner = Scanner(rows: seq<Row>, row: Row, cell: string, quoted: bool, closed: bool)

  const START := Scanner([], [], "", false, false)

  predicate HasText(row: Row) { exists i :: 0 <= i < |row| && row[i] != "" }

  function EndRow(s: Scanner): Scanner {
    var row := s.row + [s.cell];
    Scanner(if HasText(row) then s.rows + [row] else s.rows, [], "", s.quoted, false)
  }

  /** The rest of a scan; None is the error thrown for text outside the quotation marks of a cell. */
  function Scan(text: string, s: Scanner): Option<seq<Row>>
    decreases |text|
  {
    if text == "" then
      if s.quoted then None
      else if s.cell != "" || s.row != [] then Some(s.rows + [s.row + [s.cell]])
      else Some(s.rows)
    else if s.quoted && text[0] == '"' && |text| > 1 && text[1] == '"' then Scan(text[2..], s.(cell := s.cell + "\""))
    else if text[0] == '"' then
      if s.quoted then Scan(text[1..], s.(quoted := false, closed := true))
      else if s.cell != "" || s.closed then None
      else Scan(text[1..], s.(quoted := true))
    else if !s.quoted && text[0] == ',' then
      Scan(text[1..], s.(row := s.row + [s.cell], cell := "", closed := false))
    else if !s.quoted && (text[0] == '\n' || text[0] == '\r') then
      Scan(if text[0] == '\r' && |text| > 1 && text[1] == '\n' then text[2..] else text[1..], EndRow(s))
    else if s.closed then None
    else Scan(text[1..], s.(cell := s.cell + [text[0]]))
  }

  /** The scanning loop, one or two characters a turn. */
  method ScanCells(text: string) returns (result: Option<seq<Row>>)
    ensures result == Scan(text, START)
  {
    var rows: seq<Row>, row: Row, cell, quoted, closed := [], [], "", false, false;
    var index := 0;
    while index < |text|
      invariant 0 <= index <= |text|
      invariant Scan(text[index..], Scanner(rows, row, cell, quoted, closed)) == Scan(text, START)
    {
      var c := text[index];
      var next := text[index + 1..];
      assert text[index..] == [c] + next;
      assert index + 1 < |text| ==> text[index..][2..] == text[index + 2..];
      if quoted && c == '"' && index + 1 < |text| && text[index + 1] == '"' {
        cell := cell + "\"";
        index := index + 2;
        continue;
      }
      if c == '"' {
        if quoted {
          quoted, closed := false, true;
        } else {
          if cell != "" || closed { return None; }
          quoted := true;
        }
        index := index + 1;
        continue;
      }
      if !quoted && c == ',' {
        row := row + [cell];
        cell, closed := "", false;
        index := index + 1;
        continue;
      }
      if !quoted && (c == '\n' || c == '\r') {
        if c == '\r' && index + 1 < |text| && text[index + 1] == '\n' { index := index + 1; }
        row := row + [cell];
        if exists i :: 0 <= i < |row| && row[i] != "" { rows := rows + [row]; }
        row, cell, closed := [], "", false;
        index := index + 1;
        continue;
      }
      if closed { return None; }
      cell := cell + [c];
      index := index + 1;
    }
    if quoted { return None; }
    if cell != "" || row != [] {
      row := row + [cell];
      rows := rows + [row];
    }
    return Some(rows);
  }

  // ---------------------------------------------------------------- scanning undoes printing

  predicate NoQuoteFirst(rest: string) { rest == "" || rest[0] != '"' }

  lemma {:induction false} ScanQuoted(cell: string, rest: string, s: Scanner)
    requires s.quoted && !s.closed && NoQuoteFirst(rest)
    ensures Scan(Doubled(cell) + "\"" + rest, s)
      == Scan(rest, s.(cell := s.cell + cell, quoted := false, closed := true))
    decreases |cell|
  {
    var text := Doubled(cell) + "\"" + rest;
    if cell == "" {
      assert text[1..] == rest;
      assert s.cell + cell == s.cell;
    } else {
      var tail := Doubled(cell[1..]) + "\"" + rest;
      ScanQuoted(cell[1..], rest, s.(cell := s.cell + [cell[0]]));
      assert s.cell + [cell[0]] + cell[1..] == s.cell + cell;
      if cell[0] == '"' {
        assert text == "\"\"" + tail && text[2..] == tail;
      } else {
        assert text == [cell[0]] + tail && text[1..] == tail;
      }
    }
  }

  lemma ScanCell(cell: string, rest: string, s: Scanner)
    requires !s.quoted && !s.closed && s.cell == "" && NoQuoteFirst(rest)
    ensures Scan(CsvCell(cell) + rest, s) == Scan(rest, s.(cell := cell, closed := true))
  {
    var text := CsvCell(cell) + rest;
    assert text[1..] == Doubled(cell) + "\"" + rest;
    assert text[0] == '"';
    ScanQuoted(cell, rest, s.(quoted := true));
    assert "" + cell == cell;
  }

  lemma ScanComma(rest: string, s: Scanner)
    requires !s.quoted
    ensures Scan("," + rest, s) == Scan(rest, s.(row := s.row + [s.cell], cell := "", closed := false))
  {
    assert ("," + rest)[1..] == rest;
  }

  lemma ScanNewline(rest: string, s: Scanner)
    requires !s.quoted
    ensures Scan("\n" + rest, s) == Scan(rest, EndRow(s))
  {
    assert ("\n" + rest)[1..] == rest;
  }

  lemma ScanEnd(row: Row, s: Scanner)
    requires row != [] && !s.quoted && s.row == row[..|row| - 1] && s.cell == row[|row| - 1]
    ensures Scan("", s) == Some(s.rows + Kept([row]))
  {
    assert s.row + [s.cell] == row;
    if row == [""] {
      assert s.row == [];
      assert s.rows + [] == s.rows;
    } else if s.row == [] {
      assert row == [s.cell];
    }
  }

  lemma FirstThenRest(done: Row, row: Row)
    requires |row| > 1
    ensures done + [row[0]] + row[1..][..|row| - 2] == done + row[..|row| - 1]
    ensures row[1..][|row| - 2] == row[|row| - 1]
  {
  }

  lemma RenderRowStep(row: Row, rest: string)
    requires |row| > 1
    ensures RenderRow(row) + rest == CsvCell(row[0]) + ("," + (RenderRow(row[1..]) + rest))
  {
    JoinedByComma(CsvCell(row[0]), RenderRow(row[1..]), rest);
    hide CsvCell;
  }

  lemma JoinedByComma(cell: string, tail: string, rest: string)
    ensures cell + "," + tail + rest == cell + ("," + (tail + rest))
  {
  }

  lemma RenderRowsStep(rows: seq<Row>)
    requires |rows| > 1
    ensures RenderRows(rows) == RenderRow(rows[0]) + ("\n" + RenderRows(rows[1..]))
  {
  }

  /** Scanning a printed row leaves its last cell pending. */
  lemma {:induction false} ScanRow(row: Row, rest: string, s: Scanner)
    requires row != [] && !s.quoted && !s.closed && s.cell == "" && NoQuoteFirst(rest)
    ensures Scan(RenderRow(row) + rest, s)
         == Scan(rest, s.(row := s.row + row[..|row| - 1], cell := row[|row| - 1], closed := true))
    decreases |row|
  {
    if |row| == 1 {
      ScanCell(row[0], rest, s);
      assert s.row + row[..0] == s.row;
    } else {
      var tail := RenderRow(row[1..]) + rest;
      RenderRowStep(row, rest);
      ScanCell(row[0], "," + tail, s);
      ScanComma(tail, s.(cell := row[0], closed := true));
      var next := s.(row := s.row + [row[0]], cell := "", closed := false);
      ScanRow(row[1..], rest, next);
      FirstThenRest(s.row, row);
    }
  }

  /** The rows a scan keeps: blank ones go, except that the last row goes only when it is one empty cell. */
  function Kept(rows: seq<Row>): seq<Row> {
    if rows == [] then []
    else if |rows| == 1 then (if rows[0] == [""] then [] else rows)
    else (if HasText(rows[0]) then [rows[0]] else []) + Kept(rows[1..])
  }

  lemma ScanLastRow(row: Row, s: Scanner)
    requires row != [] && s == START.(rows := s.rows)
    ensures Scan(RenderRow(row), s) == Some(s.rows + Kept([row]))
  {
    ScanRow(row, "", s);
    assert RenderRow(row) + "" == RenderRow(row);
    ScanEnd(row, s.(row := s.row + row[..|row| - 1], cell := row[|row| - 1], closed := true));
  }

  lemma ScanInnerRow(row: Row, rest: string, s: Scanner)
    requires row != [] && s == START.(rows := s.rows)
    ensures Scan(RenderRow(row) + ("\n" + rest), s)
      == Scan(rest, START.(rows := if HasText(row) then s.rows + [row] else s.rows))
  {
    ScanRow(row, "\n" + rest, s);
    var pending := s.(row := s.row + row[..|row| - 1], cell := row[|row| - 1], closed := true);
    ScanNewline(rest, pending);
    assert pending.row + [pending.cell] == row;
  }

  lemma KeptFirst(rows: seq<Row>, done: seq<Row>)
    requires |rows| > 1
    ensures (if HasText(rows[0]) then done + [rows[0]] else done) + Kept(rows[1..]) == done + Kept(rows)
  {
    hide HasText;
    assert done + [rows[0]] + Kept(rows[1..]) == done + ([rows[0]] + Kept(rows[1..]));
  }

  lemma {:induction false} ScanRows(rows: seq<Row>, done: seq<Row>)
    requires rows != [] && forall i :: 0 <= i < |rows| ==> rows[i] != []
    ensures Scan(RenderRows(rows), START.(rows := done)) == Some(done + Kept(rows))
    decreases |rows|
  {
    hide Scan, RenderRow, HasText;
    var row, s := rows[0], START.(rows := done);
    if |rows| == 1 {
      ScanLastRow(row, s);
      assert rows == [row];
    } else {
      RenderRowsStep(rows);
      ScanInnerRow(row, RenderRows(rows[1..]), s);
      var kept := if HasText(row) then done + [row] else done;
      ScanRows(rows[1..], kept);
      KeptFirst(rows, done);
    }
  }

  lemma {:induction false} KeptAtMost(rows: seq<Row>)
    ensures |Kept(rows)| <= |rows|
    ensures Kept(rows) == rows <==>
      (forall i :: 0 <= i < |rows| - 1 ==> HasText(rows[i])) && (rows != [] ==> rows[|rows| - 1] != [""])
  {
    if |rows| > 1 {
      KeptAtMost(rows[1..]);
      assert rows == [rows[0]] + rows[1..];
      assert forall i :: 0 < i < |rows| ==> rows[1..][i - 1] == rows[i];
      if HasText(rows[0]) {
        assert Kept(rows) == [rows[0]] + Kept(rows[1..]);
        assert Kept(rows)[1..] == Kept(rows[1..]);
      }
    }
  }

  /**
   Scanning printed rows gives the kept rows; it gives all of them back exactly when no row before
   the last is blank and the last is not a single empty cell.
   */
  lemma CsvTextRoundTrip(rows: seq<Row>)
    requires rows != [] && forall i :: 0 <= i < |rows| ==> rows[i] != []
    ensures Scan(RenderRows(rows), START) == Some(Kept(rows))
    ensures Scan(RenderRows(rows), START) == Some(rows) <==>
      (forall i :: 0 <= i < |rows| - 1 ==> HasText(rows[i])) && rows[|rows| - 1] != [""]
  {
    ScanRows(rows, []);
    assert [] + Kept(rows) == Kept(rows);
    KeptAtMost(rows);
  }
}
