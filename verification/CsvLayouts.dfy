/**
 Every CSV text the scanner accepts, written by hand or by a spreadsheet: a grammar of cells with and without quotation
 marks, and the proof that the scanner reads exactly its texts.
 */
module CsvLayouts {
  import opened Csv
  import opened Options

  /** A cell as it is written, and what ends it where something follows. */
  datatype Cell = Bare(text: string) | Quoted(text: string)

  datatype Mark = Comma | LineFeed | Return | ReturnLineFeed

  /** A text is one cell after another, each but the last with the mark that ends it. */
  datatype Layout = Last(cell: Cell) | Then(cell: Cell, mark: Mark, rest: Layout)

  predicate PlainChar(c: char) { c != '"' && c != ',' && c != '\n' && c != '\r' }

  predicate PlainText(s: string) { forall i :: 0 <= i < |s| ==> PlainChar(s[i]) }

  predicate CellOk(c: Cell) { c.Bare? ==> PlainText(c.text) }

  predicate LayoutOk(l: Layout) { CellOk(l.cell) && (l.Then? ==> LayoutOk(l.rest)) }

  function CellText(c: Cell): string { if c.Bare? then c.text else CsvCell(c.text) }

  function MarkText(m: Mark): (t: string)
    ensures t != "" && !PlainChar(t[0]) && NoQuoteFirst(t)
  {
    match m
    case Comma => ","
    case LineFeed => "\n"
    case Return => "\r"
    case ReturnLineFeed => "\r\n"
  }

  function Written(l: Layout): string {
    match l
    case Last(cell) => CellText(cell)
    case Then(cell, mark, rest) => CellText(cell) + (MarkText(mark) + Written(rest))
  }

  /** The rows of a layout: a comma goes on in the row, the other marks begin the next one. */
  function Table(l: Layout): (rows: seq<Row>)
    ensures rows != [] && forall i :: 0 <= i < |rows| ==> rows[i] != []
  {
    match l
    case Last(cell) => [[cell.text]]
    case Then(cell, mark, rest) =>
      var rows := Table(rest);
      if mark.Comma? then [[cell.text] + rows[0]] + rows[1..] else [[cell.text]] + rows
  }

  // ---------------------------------------------------------------- the scanner reads every layout

  /** What a scan gives that has kept some rows and is in the middle of one. */
  function Outcome(done: seq<Row>, row: Row, l: Layout): seq<Row> {
    var rows := Table(l);
    done + Kept([row + rows[0]] + rows[1..])
  }

  lemma {:induction false} ScanBare(cell: string, rest: string, s: Scanner)
    requires !s.quoted && !s.closed && PlainText(cell)
    ensures Scan(cell + rest, s) == Scan(rest, s.(cell := s.cell + cell))
    decreases |cell|
  {
    if cell == "" {
      assert cell + rest == rest && s.cell + cell == s.cell;
    } else {
      assert cell + rest == [cell[0]] + (cell[1..] + rest) && PlainChar(cell[0]);
      assert (cell + rest)[1..] == cell[1..] + rest;
      ScanBare(cell[1..], rest, s.(cell := s.cell + [cell[0]]));
      assert s.cell + [cell[0]] + cell[1..] == s.cell + cell;
    }
  }

  /** A cell of either kind leaves its text pending. */
  lemma ScanAnyCell(c: Cell, rest: string, s: Scanner)
    requires CellOk(c) && !s.quoted && !s.closed && s.cell == "" && NoQuoteFirst(rest)
    ensures Scan(CellText(c) + rest, s) == Scan(rest, s.(cell := c.text, closed := c.Quoted?))
  {
    hide Scan;
    match c {
      case Bare(text) =>
        ScanBare(text, rest, s);
        assert "" + text == text;
      case Quoted(text) =>
        ScanCell(text, rest, s);
    }
  }

  /** A line feed where a row begins is a blank row, which is not kept. */
  lemma ScanBlank(rest: string, s: Scanner)
    requires !s.quoted && !s.closed && s.cell == "" && s.row == []
    ensures Scan("\n" + rest, s) == Scan(rest, s)
  {
    assert ("\n" + rest)[1..] == rest;
    assert !HasText([] + [""]);
  }

  /** All three line ends finish the row, whatever comes next. */
  lemma ScanLineEnd(m: Mark, rest: string, s: Scanner)
    requires !m.Comma? && !s.quoted
    ensures Scan(MarkText(m) + rest, s) == Scan(rest, EndRow(s))
  {
    match m {
      case LineFeed =>
        ScanNewline(rest, s);
      case ReturnLineFeed =>
        assert ("\r\n" + rest)[2..] == rest;
      case Return =>
        assert ("\r" + rest)[1..] == rest;
        if rest != "" && rest[0] == '\n' {
          assert rest == "\n" + rest[1..];
          assert ("\r" + rest)[2..] == rest[1..];
          ScanBlank(rest[1..], EndRow(s));
        }
    }
  }

  lemma WrittenStart(l: Layout)
    requires LayoutOk(l) && l.Then?
    ensures NoQuoteFirst(MarkText(l.mark) + Written(l.rest))
  {
    assert (MarkText(l.mark) + Written(l.rest))[0] == MarkText(l.mark)[0];
  }

  lemma OutcomeOfComma(done: seq<Row>, row: Row, l: Layout)
    requires l.Then? && l.mark.Comma?
    ensures Outcome(done, row, l) == Outcome(done, row + [l.cell.text], l.rest)
  {
    var rows := Table(l.rest);
    assert row + ([l.cell.text] + rows[0]) == row + [l.cell.text] + rows[0];
  }

  lemma OutcomeOfLineEnd(done: seq<Row>, row: Row, l: Layout)
    requires l.Then? && !l.mark.Comma?
    ensures Outcome(done, row, l)
         == Outcome(if HasText(row + [l.cell.text]) then done + [row + [l.cell.text]] else done, [], l.rest)
  {
    var rows := Table(l.rest);
    var first := row + [l.cell.text];
    assert Table(l)[1..] == rows && [] + rows[0] == rows[0] && [rows[0]] + rows[1..] == rows;
    KeptFirst([first] + rows, done);
    assert ([first] + rows)[1..] == rows;
  }

  /** Scanning any layout gives its rows without the blank ones. */
  lemma {:induction false} ScanLayout(l: Layout, s: Scanner)
    requires LayoutOk(l) && !s.quoted && !s.closed && s.cell == ""
    ensures Scan(Written(l), s) == Some(Outcome(s.rows, s.row, l))
    decreases l
  {
    hide Scan, HasText, Kept, CellText, MarkText, Outcome;
    match l {
      case Last(cell) =>
        assert CellText(cell) + "" == CellText(cell);
        ScanAnyCell(cell, "", s);
        LastOutcome(cell, s);
      case Then(cell, mark, rest) =>
        var tail := MarkText(mark) + Written(rest);
        var pending := s.(cell := cell.text, closed := cell.Quoted?);
        WrittenStart(l);
        ScanAnyCell(cell, tail, s);
        if mark.Comma? {
          CommaText();
          ScanComma(Written(rest), pending);
          ScanLayout(rest, s.(row := s.row + [cell.text]));
          OutcomeOfComma(s.rows, s.row, l);
        } else {
          ScanLineEnd(mark, Written(rest), pending);
          ScanLayout(rest, EndRow(pending));
          OutcomeOfLineEnd(s.rows, s.row, l);
        }
    }
  }

  lemma CommaText()
    ensures MarkText(Comma) == ","
  {
  }

  lemma LastOutcome(cell: Cell, s: Scanner)
    requires !s.quoted
    ensures Scan("", s.(cell := cell.text, closed := cell.Quoted?)) == Some(Outcome(s.rows, s.row, Last(cell)))
  {
    var row := s.row + [cell.text];
    ScanEnd(row, s.(cell := cell.text, closed := cell.Quoted?));
    assert Table(Last(cell))[1..] == [] && [row] + [] == [row];
  }

  // ---------------------------------------------------------------- the scanner reads nothing else

  lemma PrependPlain(c: char, l: Layout)
    requires LayoutOk(l) && l.cell.Bare? && PlainChar(c)
    ensures var m := l.(cell := Bare([c] + l.cell.text));
      LayoutOk(m) && Written(m) == [c] + Written(l)
  {
    assert PlainText([c] + l.cell.text);
    if l.Then? {
      assert [c] + l.cell.text + (MarkText(l.mark) + Written(l.rest))
          == [c] + (l.cell.text + (MarkText(l.mark) + Written(l.rest)));
    }
  }

  lemma CsvCellThen(t: string, tail: string)
    ensures CsvCell(t) + tail == "\"" + (Doubled(t) + "\"" + tail)
  {
    hide Doubled;
  }

  /** Putting a quoted cell where there was an empty one. */
  lemma QuoteFirst(t: string, l: Layout)
    requires LayoutOk(l) && l.cell == Bare("")
    ensures var m := l.(cell := Quoted(t));
      LayoutOk(m) && Written(m) == "\"" + (Doubled(t) + "\"" + Written(l))
  {
    hide Doubled, CsvCell, MarkText;
    var tail := if l.Last? then "" else MarkText(l.mark) + Written(l.rest);
    assert Written(l) == tail && CsvCell(t) + "" == CsvCell(t);
    CsvCellThen(t, tail);
  }

  predicate IsMark(c: char) { c == ',' || c == '\n' || c == '\r' }

  /** At a mark: the layout begins with an empty cell. */
  lemma {:induction false} FromMark(text: string, s: Scanner) returns (l: Layout)
    requires !s.quoted && text != "" && IsMark(text[0]) && Scan(text, s).Some?
    ensures LayoutOk(l) && l.cell == Bare("") && Written(l) == text
    decreases |text|, 0
  {
    if text[0] == ',' {
      var rest := FromStart(text[1..], s.(row := s.row + [s.cell], cell := "", closed := false));
      l := Then(Bare(""), Comma, rest);
      assert "" + ("," + Written(rest)) == text;
    } else if text[0] == '\r' && |text| > 1 && text[1] == '\n' {
      var rest := FromStart(text[2..], EndRow(s));
      l := Then(Bare(""), ReturnLineFeed, rest);
      assert "" + ("\r\n" + Written(rest)) == text;
    } else {
      var rest := FromStart(text[1..], EndRow(s));
      l := Then(Bare(""), if text[0] == '\n' then LineFeed else Return, rest);
      assert "" + (MarkText(l.mark) + Written(rest)) == text;
    }
  }

  /** Where a cell begins. */
  lemma {:induction false} FromStart(text: string, s: Scanner) returns (l: Layout)
    requires !s.quoted && !s.closed && s.cell == "" && Scan(text, s).Some?
    ensures LayoutOk(l) && Written(l) == text
    decreases |text|, 2
  {
    if text != "" && text[0] == '"' {
      var t, rest := FromQuoted(text[1..], s.(quoted := true));
      QuoteFirst(t, rest);
      l := rest.(cell := Quoted(t));
      assert text == "\"" + text[1..];
    } else {
      l := FromBare(text, s);
    }
  }

  /** Within a bare cell, or where one may begin. */
  lemma {:induction false} FromBare(text: string, s: Scanner) returns (l: Layout)
    requires !s.quoted && !s.closed && Scan(text, s).Some? && (s.cell == "" ==> NoQuoteFirst(text))
    ensures LayoutOk(l) && l.cell.Bare? && Written(l) == text
    decreases |text|, 1
  {
    if text == "" {
      l := Last(Bare(""));
    } else if IsMark(text[0]) {
      l := FromMark(text, s);
    } else {
      var rest := FromBare(text[1..], s.(cell := s.cell + [text[0]]));
      PrependPlain(text[0], rest);
      l := rest.(cell := Bare([text[0]] + rest.cell.text));
      assert text == [text[0]] + text[1..];
    }
  }

  /** After a closing quotation mark only a mark or the end of the text may follow. */
  lemma {:induction false} FromClosed(text: string, s: Scanner) returns (l: Layout)
    requires !s.quoted && s.closed && Scan(text, s).Some?
    ensures LayoutOk(l) && l.cell == Bare("") && Written(l) == text
    decreases |text|, 1
  {
    if text == "" { l := Last(Bare("")); } else { l := FromMark(text, s); }
  }

  /** Within a quoted cell: its text up to the closing quotation mark, and what follows. */
  lemma {:induction false} FromQuoted(text: string, s: Scanner) returns (t: string, l: Layout)
    requires s.quoted && !s.closed && Scan(text, s).Some?
    ensures LayoutOk(l) && l.cell == Bare("") && text == Doubled(t) + "\"" + Written(l)
    decreases |text|, 0
  {
    if text[0] == '"' && |text| > 1 && text[1] == '"' {
      t, l := FromQuoted(text[2..], s.(cell := s.cell + "\""));
      DoubledStep('"', t, Written(l));
      assert text == "\"\"" + text[2..];
      t := ['"'] + t;
    } else if text[0] == '"' {
      l := FromClosed(text[1..], s.(quoted := false, closed := true));
      t := "";
      assert text == "\"" + text[1..];
    } else {
      t, l := FromQuoted(text[1..], s.(cell := s.cell + [text[0]]));
      DoubledStep(text[0], t, Written(l));
      assert text == [text[0]] + text[1..];
      t := [text[0]] + t;
    }
  }

  lemma DoubledStep(c: char, t: string, rest: string)
    ensures Doubled([c] + t) + "\"" + rest
         == (if c == '"' then "\"\"" else [c]) + (Doubled(t) + "\"" + rest)
  {
    assert ([c] + t)[1..] == t;
    hide Doubled;
  }

  // ---------------------------------------------------------------- the whole text

  ghost predicate HasLayout(text: string) { exists l :: LayoutOk(l) && Written(l) == text }

  /** A text scans exactly when it has a layout, and then to the rows of that layout that are not blank. */
  lemma ScanMeaning(text: string)
    ensures Scan(text, START).Some? <==> HasLayout(text)
    ensures forall l :: LayoutOk(l) && Written(l) == text ==> Scan(text, START) == Some(Kept(Table(l)))
  {
    hide Scan, LayoutOk, Written, Kept;
    forall l | LayoutOk(l) && Written(l) == text ensures Scan(text, START) == Some(Kept(Table(l))) {
      LayoutScans(l);
    }
    if Scan(text, START).Some? { var l := FromStart(text, START); }
  }

  lemma LayoutScans(l: Layout)
    requires LayoutOk(l)
    ensures Scan(Written(l), START) == Some(Kept(Table(l)))
  {
    hide Scan, Kept, LayoutOk, Written;
    ScanLayout(l, START);
    var rows := Table(l);
    assert [] + rows[0] == rows[0] && [rows[0]] + rows[1..] == rows && [] + Kept(rows) == Kept(rows);
  }

  // ---------------------------------------------------------------- texts that are refused

  /** The cells before a fault: each with the mark that ends it. */
  function Before(cells: seq<(Cell, Mark)>): string {
    if cells == [] then "" else CellText(cells[0].0) + (MarkText(cells[0].1) + Before(cells[1..]))
  }

  ghost predicate CellsOk(cells: seq<(Cell, Mark)>) { forall i :: 0 <= i < |cells| ==> CellOk(cells[i].0) }

  /** A text that is refused where a cell begins is refused after any cells before it. */
  lemma {:induction false} RefusedAfter(cells: seq<(Cell, Mark)>, rest: string, s: Scanner)
    requires CellsOk(cells) && !s.quoted && !s.closed && s.cell == ""
    requires forall t: Scanner :: !t.quoted && !t.closed && t.cell == "" ==> Scan(rest, t) == None
    ensures Scan(Before(cells) + rest, s) == None
    decreases |cells|
  {
    hide Scan, CellText, MarkText;
    if cells == [] {
      assert Before(cells) + rest == rest;
    } else {
      var (cell, mark) := cells[0];
      var inner := Before(cells[1..]) + rest;
      assert Before(cells) + rest == CellText(cell) + (MarkText(mark) + inner);
      MarkIsNoQuote(mark, inner);
      ScanAnyCell(cell, MarkText(mark) + inner, s);
      var pending := s.(cell := cell.text, closed := cell.Quoted?);
      if mark.Comma? {
        CommaText();
        ScanComma(inner, pending);
        RefusedAfter(cells[1..], rest, s.(row := s.row + [cell.text]));
      } else {
        ScanLineEnd(mark, inner, pending);
        RefusedAfter(cells[1..], rest, EndRow(pending));
      }
    }
  }

  lemma MarkIsNoQuote(m: Mark, rest: string)
    ensures NoQuoteFirst(MarkText(m) + rest)
  {
    assert (MarkText(m) + rest)[0] == MarkText(m)[0];
  }

  /** A quotation mark within a bare cell. */
  lemma MarkInBareIsRefused(cells: seq<(Cell, Mark)>, bare: string, rest: string)
    requires CellsOk(cells) && bare != "" && PlainText(bare)
    ensures Scan(Before(cells) + (bare + ("\"" + rest)), START) == None
  {
    forall t: Scanner | !t.quoted && !t.closed && t.cell == "" ensures Scan(bare + ("\"" + rest), t) == None {
      ScanBare(bare, "\"" + rest, t);
    }
    RefusedAfter(cells, bare + ("\"" + rest), START);
  }

  /** Anything but a mark after the closing quotation mark. */
  lemma TextAfterClosingIsRefused(cells: seq<(Cell, Mark)>, quoted: string, c: char, rest: string)
    requires CellsOk(cells) && PlainChar(c)
    ensures Scan(Before(cells) + (CsvCell(quoted) + ([c] + rest)), START) == None
  {
    hide CsvCell;
    var text := CsvCell(quoted) + ([c] + rest);
    forall t: Scanner | !t.quoted && !t.closed && t.cell == "" ensures Scan(text, t) == None {
      ScanCell(quoted, [c] + rest, t);
      PlainAfterClosing(c, rest, t.(cell := quoted, closed := true));
    }
    hide Scan;
    RefusedAfter(cells, text, START);
  }

  lemma PlainAfterClosing(c: char, rest: string, s: Scanner)
    requires PlainChar(c) && !s.quoted && s.closed
    ensures Scan([c] + rest, s) == None
  {
  }

  /** A quoted cell that is never closed. */
  lemma UnclosedIsRefused(cells: seq<(Cell, Mark)>, quoted: string)
    requires CellsOk(cells)
    ensures Scan(Before(cells) + ("\"" + Doubled(quoted)), START) == None
  {
    var text := "\"" + Doubled(quoted);
    forall t: Scanner | !t.quoted && !t.closed && t.cell == "" ensures Scan(text, t) == None {
      assert text[1..] == Doubled(quoted);
      ScanUnclosed(quoted, t.(quoted := true));
    }
    hide Scan;
    RefusedAfter(cells, text, START);
  }

  lemma {:induction false} ScanUnclosed(cell: string, s: Scanner)
    requires s.quoted
    ensures Scan(Doubled(cell), s) == None
    decreases |cell|
  {
    if cell != "" {
      var text := Doubled(cell);
      ScanUnclosed(cell[1..], s.(cell := s.cell + [cell[0]]));
      if cell[0] == '"' {
        assert text == "\"\"" + Doubled(cell[1..]) && text[2..] == Doubled(cell[1..]);
      } else {
        assert text == [cell[0]] + Doubled(cell[1..]) && text[1..] == Doubled(cell[1..]);
      }
    }
  }

  /** Two bare cells. */
  lemma TwoBareCells()
    ensures Scan("a,b", START) == Some([["a", "b"]])
  {
    var l := Then(Bare("a"), Comma, Last(Bare("b")));
    assert Written(l) == "a" + ("," + "b") == "a,b";
    assert Table(l.rest) == [["b"]] && ["a"] + ["b"] == ["a", "b"];
    assert Table(l) == [["a", "b"]] + [] == [["a", "b"]] && |["a", "b"]| == 2;
    LayoutScans(l);
  }
}
