/** Which worksheet files are read, and what they are read as, row by row: for any rows in any order. */
module WorksheetRows {
  import opened Csv
  import opened CsvLayouts
  import opened Options
  import opened Texts
  import opened Worksheets

  const CELLS: seq<string> := ["0", "1", "2"]

  /** Some row before the i-th is about the sheet with this index cell. */
  predicate Opened(rows: seq<Row>, i: nat, cell: string)
    requires i <= |rows|
  {
    exists j :: 0 <= j < i && rows[j] != [] && rows[j][0] == cell
  }

  /** The i-th row defines what an earlier row has defined: it has the same sheet, kind and key. */
  predicate Repeats(rows: seq<Row>, i: nat)
    requires i < |rows| && |rows[i]| >= 3
  {
    exists j :: 0 <= j < i && |rows[j]| >= 3 && rows[j][..3] == rows[i][..3]
  }

  /** A metadata row names one of the five properties, an input row a key of small letters, digits and underscores. */
  predicate NamesInput(kind: string, key: string) {
    || (kind == "meta" && key in {"schema", "pack_id", "pack_version", "mode", "currency_code"})
    || (kind == "input" && 1 <= |key| <= 64 && 'a' <= key[0] <= 'z'
        && forall i :: 1 <= i < |key| ==> 'a' <= key[i] <= 'z' || '0' <= key[i] <= '9' || key[i] == '_')
  }

  /** The row has seven cells, and the index cell names a sheet already opened or the next one. */
  predicate PlaceFits(rows: seq<Row>, i: nat)
    requires i < |rows|
  {
    var row := rows[i];
    && |row| == 7
    && (row[0] == "0" || (row[0] == "1" && Opened(rows, i, "0")) || (row[0] == "2" && Opened(rows, i, "1")))
  }

  /** What a row must be, the place of its sheet apart. */
  predicate ContentFits<V(!new)>(rows: seq<Row>, i: nat, codec: Codec<V>)
    requires i < |rows| && |rows[i]| == 7
  {
    var row := rows[i];
    && codec.parse(row[3]).Some?
    && (row[1] == "evidence" || (row[4..] == ["", "", ""] && !Repeats(rows, i) && NamesInput(row[1], row[2])))
  }

  /** The i-th row can be read after those before it. */
  predicate RowFits<V(!new)>(rows: seq<Row>, i: nat, codec: Codec<V>)
    requires i < |rows|
  {
    PlaceFits(rows, i) && ContentFits(rows, i, codec)
  }

  /** The row is about the sheet and of the kind. */
  predicate About<V(!new)>(row: Row, cell: string, kind: string, codec: Codec<V>) {
    |row| == 7 && row[0] == cell && row[1] == kind && codec.parse(row[3]).Some?
  }

  /** What the first i rows define for a sheet, in their order. */
  function Defined<V(!new)>(rows: seq<Row>, i: nat, cell: string, kind: string, codec: Codec<V>): Entries<V>
    requires i <= |rows|
  {
    if i == 0 then []
    else
      var row := rows[i - 1];
      Defined(rows, i - 1, cell, kind, codec)
        + (if About(row, cell, kind, codec) then [(row[2], codec.parse(row[3]).value)] else [])
  }

  function Observed<V(!new)>(rows: seq<Row>, i: nat, cell: string, codec: Codec<V>): seq<Evidence<V>>
    requires i <= |rows|
  {
    if i == 0 then []
    else
      var row := rows[i - 1];
      Observed(rows, i - 1, cell, codec)
        + (if About(row, cell, "evidence", codec)
           then [Evidence(row[2], codec.parse(row[3]).value, row[4], row[5], row[6])] else [])
  }

  function SheetAt<V(!new)>(rows: seq<Row>, i: nat, cell: string, codec: Codec<V>): Sheet<V>
    requires i <= |rows|
  {
    Sheet(Defined(rows, i, cell, "meta", codec), Defined(rows, i, cell, "input", codec),
      Observed(rows, i, cell, codec))
  }

  /** The sheets the first i rows describe: as many as have been opened, each with its own rows. */
  ghost predicate Describes<V(!new)>(sheets: seq<Sheet<V>>, rows: seq<Row>, i: nat, codec: Codec<V>)
    requires i <= |rows|
  {
    && |sheets| <= 3
    && forall n :: 0 <= n < 3 ==>
      && (n < |sheets| <==> Opened(rows, i, CELLS[n]))
      && (n < |sheets| ==> sheets[n] == SheetAt(rows, i, CELLS[n], codec))
  }

  ghost predicate AllFit<V(!new)>(rows: seq<Row>, i: nat, codec: Codec<V>)
    requires i <= |rows|
  {
    forall j :: 0 <= j < i ==> RowFits(rows, j, codec)
  }

  // ---------------------------------------------------------------- one row

  lemma CellOf(row: Row, n: nat)
    requires n < 3 && |row| == 7
    ensures row[0] == CELLS[n] <==> |row[0]| == 1 && row[0][0] as int - '0' as int == n
  {
  }

  lemma {:induction false} DefinedKeys<V(!new)>(rows: seq<Row>, i: nat, cell: string, kind: string, key: string,
      codec: Codec<V>)
    requires i <= |rows|
    ensures HasKey(Defined(rows, i, cell, kind, codec), key) <==>
      exists j :: 0 <= j < i && About(rows[j], cell, kind, codec) && rows[j][2] == key
  {
    if i > 0 {
      DefinedKeys(rows, i - 1, cell, kind, key, codec);
      var (before, now) := (Defined(rows, i - 1, cell, kind, codec), Defined(rows, i, cell, kind, codec));
      assert forall k :: 0 <= k < |before| ==> now[k] == before[k];
      var row := rows[i - 1];
      assert About(row, cell, kind, codec) ==> now[|before|] == (row[2], codec.parse(row[3]).value);
      hide About, Defined;
    }
  }

  /** Among rows that fit, what is defined already is what an earlier row has for the same sheet, kind and key. */
  lemma DefinedBefore<V(!new)>(rows: seq<Row>, i: nat, codec: Codec<V>)
    requires i < |rows| && |rows[i]| == 7 && AllFit(rows, i, codec)
    ensures Repeats(rows, i) <==> HasKey(Defined(rows, i, rows[i][0], rows[i][1], codec), rows[i][2])
  {
    var row := rows[i];
    DefinedKeys(rows, i, row[0], row[1], row[2], codec);
    forall j | 0 <= j < i
      ensures |rows[j]| >= 3 && rows[j][..3] == row[..3] <==>
        About(rows[j], row[0], row[1], codec) && rows[j][2] == row[2]
    {
      assert RowFits(rows, j, codec);
      SameStart(rows[j], row);
    }
    hide Defined, RowFits, HasKey;
  }

  lemma SameStart(a: Row, b: Row)
    requires |a| == 7 && |b| == 7
    ensures a[..3] == b[..3] <==> a[0] == b[0] && a[1] == b[1] && a[2] == b[2]
  {
    if a[..3] == b[..3] { assert a[0] == a[..3][0] && a[1] == a[..3][1] && a[2] == a[..3][2]; }
  }

  lemma NamesMeaning(kind: string, key: string)
    ensures NamesInput(kind, key) <==> (kind == "meta" && IsMetaKey(key)) || (kind == "input" && IsInputKey(key))
  {
  }

  lemma BareMeaning(row: Row)
    requires |row| == 7
    ensures row[4..] == ["", "", ""] <==> row[4] == "" && row[5] == "" && row[6] == ""
  {
    if row[4..] == ["", "", ""] { assert row[4] == row[4..][0] && row[5] == row[4..][1] && row[6] == row[4..][2]; }
  }

  /** One row more adds to the list of its own kind alone. */
  lemma DefinesOne<V(!new)>(rows: seq<Row>, i: nat, codec: Codec<V>)
    requires i < |rows| && |rows[i]| == 7 && codec.parse(rows[i][3]).Some?
    ensures var (row, v) := (rows[i], codec.parse(rows[i][3]).value);
      var (s, next) := (SheetAt(rows, i, row[0], codec), SheetAt(rows, i + 1, row[0], codec));
      && (row[1] == "evidence" ==> next == s.(evidence := s.evidence + [Evidence(row[2], v, row[4], row[5], row[6])]))
      && (row[1] == "meta" ==> next == s.(properties := s.properties + [(row[2], v)]))
      && (row[1] == "input" ==> next == s.(inputs := s.inputs + [(row[2], v)]))
  {
    assert "evidence" != "meta" && "evidence" != "input" && "meta" != "input";
  }

  lemma RowIsAdded<V(!new)>(rows: seq<Row>, i: nat, codec: Codec<V>)
    requires i < |rows| && |rows[i]| == 7 && AllFit(rows, i, codec)
    ensures AddRow(SheetAt(rows, i, rows[i][0], codec), rows[i], codec)
         == if ContentFits(rows, i, codec) then Some(SheetAt(rows, i + 1, rows[i][0], codec)) else None
  {
    DefinedBefore(rows, i, codec);
    NamesMeaning(rows[i][1], rows[i][2]);
    BareMeaning(rows[i]);
    if codec.parse(rows[i][3]).Some? { DefinesOne(rows, i, codec); }
    hide Repeats, AllFit, NamesInput, HasKey, IsMetaKey, IsInputKey, Defined, Observed;
    assert "evidence" != "meta" && "evidence" != "input" && "meta" != "input";
  }

  lemma OtherSheet<V(!new)>(rows: seq<Row>, i: nat, cell: string, codec: Codec<V>)
    requires i < |rows| && |rows[i]| == 7 && rows[i][0] != cell
    ensures SheetAt(rows, i + 1, cell, codec) == SheetAt(rows, i, cell, codec)
    ensures Opened(rows, i + 1, cell) <==> Opened(rows, i, cell)
  {
  }

  lemma {:induction false} NothingDefined<V(!new)>(rows: seq<Row>, i: nat, cell: string, codec: Codec<V>)
    requires i <= |rows| && !Opened(rows, i, cell)
    ensures SheetAt(rows, i, cell, codec) == Sheet([], [], [])
  {
    if i > 0 {
      NothingDefined(rows, i - 1, cell, codec);
      assert rows[i - 1] == [] || rows[i - 1][0] != cell;
    }
  }

  lemma PlaceMeaning<V(!new)>(sheets: seq<Sheet<V>>, rows: seq<Row>, i: nat, codec: Codec<V>)
    requires i < |rows| && Describes(sheets, rows, i, codec)
    ensures var row := rows[i]; PlaceFits(rows, i) <==>
      |row| == 7 && |row[0]| == 1 && '0' <= row[0][0] <= '2' && row[0][0] as int - '0' as int <= |sheets|
  {
    hide SheetAt, Opened;
    assert Opened(rows, i, CELLS[0]) <==> 0 < |sheets|;
    assert Opened(rows, i, CELLS[1]) <==> 1 < |sheets|;
    if |rows[i]| == 7 {
      CellOf(rows[i], 0);
      CellOf(rows[i], 1);
      CellOf(rows[i], 2);
    }
  }

  /** One row is added exactly when it fits, and then the sheets describe one row more. */
  lemma RowStep<V(!new)>(sheets: seq<Sheet<V>>, rows: seq<Row>, i: nat, codec: Codec<V>)
    requires i < |rows| && Describes(sheets, rows, i, codec) && AllFit(rows, i, codec)
    ensures var next := AddToSheets(sheets, rows[i], codec);
      && (next.Some? <==> RowFits(rows, i, codec))
      && (next.Some? ==> Describes(next.value, rows, i + 1, codec))
  {
    PlaceMeaning(sheets, rows, i, codec);
    if PlaceFits(rows, i) {
      SheetIsFilled(sheets, rows, i, codec);
    }
    hide PlaceFits, ContentFits, AllFit, Describes, AddRow;
  }

  lemma SheetIsFilled<V(!new)>(sheets: seq<Sheet<V>>, rows: seq<Row>, i: nat, codec: Codec<V>)
    requires i < |rows| && Describes(sheets, rows, i, codec) && AllFit(rows, i, codec) && PlaceFits(rows, i)
    requires var row := rows[i]; |row[0]| == 1 && '0' <= row[0][0] <= '2' && row[0][0] as int - '0' as int <= |sheets|
    ensures var next := AddToSheets(sheets, rows[i], codec);
      && (next.Some? <==> ContentFits(rows, i, codec))
      && (next.Some? ==> Describes(next.value, rows, i + 1, codec))
  {
    var row, n := rows[i], rows[i][0][0] as int - '0' as int;
    hide AllFit, RowFits, PlaceFits, ContentFits, AddRow, SheetAt, Opened;
    CellOf(row, n);
    var grown := if n == |sheets| then sheets + [Sheet([], [], [])] else sheets;
    if n == |sheets| { NothingDefined(rows, i, CELLS[n], codec); }
    assert grown[n] == SheetAt(rows, i, CELLS[n], codec);
    RowIsAdded(rows, i, codec);
    if ContentFits(rows, i, codec) {
      DescribesNext(sheets, rows, i, n, codec);
    }
  }

  lemma DescribesNext<V(!new)>(sheets: seq<Sheet<V>>, rows: seq<Row>, i: nat, n: nat, codec: Codec<V>)
    requires i < |rows| && Describes(sheets, rows, i, codec)
    requires n <= |sheets| && n < 3 && |rows[i]| == 7 && rows[i][0] == CELLS[n]
    ensures var grown := if n == |sheets| then sheets + [Sheet([], [], [])] else sheets;
      Describes(grown[n := SheetAt(rows, i + 1, CELLS[n], codec)], rows, i + 1, codec)
  {
    var grown := if n == |sheets| then sheets + [Sheet([], [], [])] else sheets;
    var next := grown[n := SheetAt(rows, i + 1, CELLS[n], codec)];
    CellOf(rows[i], n);
    assert Opened(rows, i + 1, CELLS[n]);
    hide SheetAt, Opened;
    forall m | 0 <= m < 3
      ensures (m < |next| <==> Opened(rows, i + 1, CELLS[m]))
        && (m < |next| ==> next[m] == SheetAt(rows, i + 1, CELLS[m], codec))
    {
      if m != n {
        CellOf(rows[i], m);
        OtherSheet(rows, i, CELLS[m], codec);
        assert m < |sheets| <==> Opened(rows, i, CELLS[m]);
      }
    }
  }

  // ---------------------------------------------------------------- all rows, and the text

  lemma {:induction false} DecodedUpTo<V(!new)>(rows: seq<Row>, i: nat, codec: Codec<V>)
    requires i <= |rows|
    ensures var r := DecodeRows([], rows[..i], codec);
      && (r.Some? <==> AllFit(rows, i, codec))
      && (r.Some? ==> Describes(r.value, rows, i, codec))
  {
    if i > 0 {
      DecodedUpTo(rows, i - 1, codec);
      DecodeConcat([], rows[..i - 1], [rows[i - 1]], codec);
      assert rows[..i] == rows[..i - 1] + [rows[i - 1]];
      hide Describes, RowFits, AddToSheets;
      var r := DecodeRows([], rows[..i - 1], codec);
      if r.Some? {
        RowStep(r.value, rows, i - 1, codec);
        assert [rows[i - 1]][1..] == [];
      }
    }
  }

  /**
   Rows are decoded exactly when every one of them fits after those before it, in any order; then there is a sheet for
   every index used, holding the metadata, inputs and evidence of its own rows in their order.
   */
  lemma RowsMeaning<V(!new)>(rows: seq<Row>, codec: Codec<V>)
    ensures var r := DecodeRows([], rows, codec);
      && (r.Some? <==> forall i :: 0 <= i < |rows| ==> RowFits(rows, i, codec))
      && (r.Some? ==> Describes(r.value, rows, |rows|, codec))
  {
    DecodedUpTo(rows, |rows|, codec);
    assert rows[..|rows|] == rows;
    hide RowFits, Describes;
  }

  /** Whether a file is read depends on its layout, its header and its rows alone. */
  lemma ParseMeaning<V(!new)>(text: string, codec: Codec<V>)
    ensures !HasLayout(text) ==> DecodeText(text, codec) == None
    ensures forall l :: LayoutOk(l) && Written(l) == text ==>
      var (rows, r) := (Kept(Table(l)), DecodeText(text, codec));
      && (r.Some? <==> HeaderFits(rows) && forall i :: 0 <= i < |rows| - 1 ==> RowFits(rows[1..], i, codec))
      && (r.Some? ==> Describes(r.value, rows[1..], |rows| - 1, codec))
  {
    hide Scan, LayoutOk, Written, Kept, Table, DecodeRows, RowFits, Describes;
    ScanMeaning(text);
    forall l | LayoutOk(l) && Written(l) == text
      ensures var (rows, r) := (Kept(Table(l)), DecodeText(text, codec));
        && (r.Some? <==> HeaderFits(rows) && forall i :: 0 <= i < |rows| - 1 ==> RowFits(rows[1..], i, codec))
        && (r.Some? ==> Describes(r.value, rows[1..], |rows| - 1, codec))
    {
      var rows := Kept(Table(l));
      assert Scan(text, START) == Some(rows);
      assert HeaderFits(rows) <==> rows != [] && JoinCommas(rows[0]) == JoinCommas(HEADER);
      if rows != [] { RowsMeaning(rows[1..], codec); }
      hide HeaderFits, JoinCommas;
    }
  }

  /** The first row is the header; only its cells joined by commas are looked at. */
  predicate HeaderFits(rows: seq<Row>) {
    && rows != []
    && JoinCommas(rows[0]) == JoinCommas(["plan", "kind", "key", "value", "provenance", "observer_role", "date"])
  }

  /** One row, no cell in quotation marks. */
  predicate OneLine(l: Layout) { l.cell.Bare? && (l.Then? ==> l.mark.Comma? && OneLine(l.rest)) }

  /** Cells joined by commas are the row as it is written without quotation marks. */
  lemma {:induction false} JoinedIsWritten(l: Layout)
    requires OneLine(l)
    ensures JoinCommas(Table(l)[0]) == Written(l) && |Table(l)| == 1
  {
    if l.Then? {
      JoinedIsWritten(l.rest);
      var tail := Table(l.rest)[0];
      assert ([l.cell.text] + tail)[1..] == tail;
      assert l.cell.text + "," + JoinCommas(tail) == l.cell.text + ("," + JoinCommas(tail));
    }
  }
}
