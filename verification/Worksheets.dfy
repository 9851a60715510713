/**
 Business-plan worksheets as CSV: a printer that pushes one row per fact and a decoder that rebuilds
 the sheets row by row. JSON text of single values is a codec parameter.
 */
module Worksheets {
  import opened Csv
  import opened Options
  import opened Texts

  /** JSON.stringify and JSON.parse for the values held in worksheets; parse gives None where it throws. */
  datatype Codec<!V(!new)> = Codec(stringify: V -> string, parse: string -> Option<V>) {
    ghost predicate Inverse() { forall v: V :: parse(stringify(v)) == Some(v) }
  }

  datatype Evidence<V> = Evidence(fieldKey: string, value: V, provenance: string, observerRole: string, date: string)

  type Entries<V> = seq<(string, V)>

  datatype Worksheet<V> = Worksheet(
    schema: V, packId: V, packVersion: V, mode: V, currencyCode: V, inputs: Entries<V>, evidence: seq<Evidence<V>>)

  /** A sheet while and after it is decoded: its own properties and its inputs in the order they were defined. */
  datatype Sheet<V> = Sheet(properties: Entries<V>, inputs: Entries<V>, evidence: seq<Evidence<V>>)

  function Properties<V>(w: Worksheet<V>): (ps: Entries<V>)
    ensures |ps| == 5
  {
    [("schema", w.schema), ("pack_id", w.packId), ("pack_version", w.packVersion), ("mode", w.mode),
      ("currency_code", w.currencyCode)]
  }

  function AsSheet<V>(w: Worksheet<V>): Sheet<V> { Sheet(Properties(w), w.inputs, w.evidence) }

  const HEADER: Row := ["plan", "kind", "key", "value", "provenance", "observer_role", "date"]
  const MAX_BYTES := 65536

  predicate IsMetaKey(key: string) {
    key == "schema" || key == "pack_id" || key == "pack_version" || key == "mode" || key == "currency_code"
  }

  predicate IsKeyStart(c: char) { 'a' <= c <= 'z' }

  predicate IsKeyChar(c: char) { 'a' <= c <= 'z' || '0' <= c <= '9' || c == '_' }

  /** The field-key pattern: a lower-case letter and at most 63 more letters, digits or underscores. */
  predicate IsInputKey(key: string) {
    0 < |key| <= 64 && IsKeyStart(key[0]) && forall i :: 0 < i < |key| ==> IsKeyChar(key[i])
  }

  predicate HasKey<V>(entries: Entries<V>, key: string) { exists i :: 0 <= i < |entries| && entries[i].0 == key }

  ghost predicate DistinctKeys<V>(entries: Entries<V>) {
    forall i, j :: 0 <= i < j < |entries| ==> entries[i].0 != entries[j].0
  }

  // ---------------------------------------------------------------- printing

  function IndexCell(index: nat): string
    requires index < 10
  {
    [('0' as int + index) as char]
  }

  function EntryRow<V(!new)>(index: nat, kind: string, entry: (string, V), codec: Codec<V>): Row
    requires index < 10
  {
    [IndexCell(index), kind, entry.0, codec.stringify(entry.1), "", "", ""]
  }

  function EvidenceRow<V(!new)>(index: nat, e: Evidence<V>, codec: Codec<V>): Row
    requires index < 10
  {
    [IndexCell(index), "evidence", e.fieldKey, codec.stringify(e.value), e.provenance, e.observerRole, e.date]
  }

  function EntryRows<V(!new)>(index: nat, kind: string, entries: Entries<V>, codec: Codec<V>): seq<Row>
    requires index < 10
  {
    seq(|entries|, i requires 0 <= i < |entries| => EntryRow(index, kind, entries[i], codec))
  }

  function EvidenceRows<V(!new)>(index: nat, evidence: seq<Evidence<V>>, codec: Codec<V>): seq<Row>
    requires index < 10
  {
    seq(|evidence|, i requires 0 <= i < |evidence| => EvidenceRow(index, evidence[i], codec))
  }

  function SheetRows<V(!new)>(index: nat, w: Worksheet<V>, codec: Codec<V>): seq<Row>
    requires index < 10
  {
    EntryRows(index, "meta", Properties(w), codec) + EntryRows(index, "input", w.inputs, codec)
      + EvidenceRows(index, w.evidence, codec)
  }

  /** The rows of the sheets from the given index on. */
  function RowsFrom<V(!new)>(ws: seq<Worksheet<V>>, index: nat, codec: Codec<V>): seq<Row>
    requires index <= |ws| <= 3
    decreases |ws| - index
  {
    if index == |ws| then [] else SheetRows(index, ws[index], codec) + RowsFrom(ws, index + 1, codec)
  }

  datatype Outcome = Content(text: string) | Invalid | TooLarge

  lemma PushNext<T>(before: seq<T>, all: seq<T>, i: nat)
    requires i < |all|
    ensures before + all[..i] + [all[i]] == before + all[..i + 1]
  {
  }

  /** The rows pushed for one sheet, by the three loops of the printer's callback. */
  method PushSheet<V(!new)>(before: seq<Row>, index: nat, sheet: Worksheet<V>, codec: Codec<V>) returns (rows: seq<Row>)
    requires index < 10
    ensures rows == before + SheetRows(index, sheet, codec)
  {
    rows := before;
    var properties := Properties(sheet);
    ghost var all := EntryRows(index, "meta", properties, codec);
    for i := 0 to |properties|
      invariant rows == before + all[..i]
    {
      rows := rows + [EntryRow(index, "meta", properties[i], codec)];
      PushNext(before, all, i);
    }
    ghost var meta := rows;
    all := EntryRows(index, "input", sheet.inputs, codec);
    for i := 0 to |sheet.inputs|
      invariant rows == meta + all[..i]
    {
      rows := rows + [EntryRow(index, "input", sheet.inputs[i], codec)];
      PushNext(meta, all, i);
    }
    ghost var inputs := rows;
    all := EvidenceRows(index, sheet.evidence, codec);
    for i := 0 to |sheet.evidence|
      invariant rows == inputs + all[..i]
    {
      rows := rows + [EvidenceRow(index, sheet.evidence[i], codec)];
      PushNext(inputs, all, i);
    }
  }

  lemma RowsOfNext<V(!new)>(before: seq<Row>, ws: seq<Worksheet<V>>, index: nat, codec: Codec<V>)
    requires index < |ws| <= 3
    ensures before + SheetRows(index, ws[index], codec) + RowsFrom(ws, index + 1, codec)
         == before + RowsFrom(ws, index, codec)
  {
    hide SheetRows;
  }

  method SerializeWorksheets<V(!new)>(ws: seq<Worksheet<V>>, codec: Codec<V>) returns (result: Outcome)
    ensures result.Invalid? <==> |ws| == 0 || |ws| > 3
    ensures 1 <= |ws| <= 3 ==>
      var text := RenderRows([HEADER] + RowsFrom(ws, 0, codec));
      result == if Utf8Length(text) > MAX_BYTES then TooLarge else Content(text)
  {
    if |ws| == 0 || |ws| > 3 { return Invalid; }
    hide HEADER, SheetRows, RenderRows, Utf8Length;
    var rows := [HEADER];
    for index := 0 to |ws|
      invariant rows + RowsFrom(ws, index, codec) == [HEADER] + RowsFrom(ws, 0, codec)
    {
      RowsOfNext(rows, ws, index, codec);
      rows := PushSheet(rows, index, ws[index], codec);
    }
    assert rows + [] == rows;
    var text := RenderRows(rows);
    return if Utf8Length(text) > MAX_BYTES then TooLarge else Content(text);
  }

  // ---------------------------------------------------------------- decoding

  function AddEntry<V>(entries: Entries<V>, key: string, value: Option<V>): Option<Entries<V>> {
    if HasKey(entries, key) || value.None? then None else Some(entries + [(key, value.value)])
  }

  /** Adds one row to a sheet; None is the error thrown for an unusable row. */
  function AddRow<V(!new)>(sheet: Sheet<V>, row: Row, codec: Codec<V>): Option<Sheet<V>>
    requires |row| == 7
  {
    var kind, key, value := row[1], row[2], codec.parse(row[3]);
    var bare := row[4] == "" && row[5] == "" && row[6] == "";
    if kind == "evidence" then
      if value.None? then None
      else Some(sheet.(evidence := sheet.evidence + [Evidence(key, value.value, row[4], row[5], row[6])]))
    else if kind == "meta" && IsMetaKey(key) && bare then
      match AddEntry(sheet.properties, key, value)
      case None => None
      case Some(properties) => Some(sheet.(properties := properties))
    else if kind == "input" && IsInputKey(key) && bare then
      match AddEntry(sheet.inputs, key, value)
      case None => None
      case Some(inputs) => Some(sheet.(inputs := inputs))
    else None
  }

  /** The sheet list after one row; a row may open the next sheet but may not skip one. */
  function AddToSheets<V(!new)>(sheets: seq<Sheet<V>>, row: Row, codec: Codec<V>): Option<seq<Sheet<V>>> {
    if |row| != 7 || |row[0]| != 1 || !('0' <= row[0][0] <= '2') then None
    else
      var n := row[0][0] as int - '0' as int;
      if n > |sheets| then None
      else
        var grown := if n == |sheets| then sheets + [Sheet([], [], [])] else sheets;
        match AddRow(grown[n], row, codec)
        case None => None
        case Some(sheet) => Some(grown[n := sheet])
  }

  function DecodeRows<V(!new)>(sheets: seq<Sheet<V>>, rows: seq<Row>, codec: Codec<V>): Option<seq<Sheet<V>>>
    decreases |rows|
  {
    if rows == [] then Some(sheets)
    else
      match AddToSheets(sheets, rows[0], codec)
      case None => None
      case Some(next) => DecodeRows(next, rows[1..], codec)
  }

  function JoinCommas(row: Row): string {
    if row == [] then "" else if |row| == 1 then row[0] else row[0] + "," + JoinCommas(row[1..])
  }

  function DecodeText<V(!new)>(text: string, codec: Codec<V>): Option<seq<Sheet<V>>> {
    match Scan(text, START)
    case None => None
    case Some(rows) =>
      if rows == [] || JoinCommas(rows[0]) != JoinCommas(HEADER) then None else DecodeRows([], rows[1..], codec)
  }

  method ParseWorksheetCsv<V(!new)>(text: string, codec: Codec<V>) returns (result: Option<seq<Sheet<V>>>)
    ensures result == DecodeText(text, codec)
  {
    var scanned := ScanCells(text);
    if scanned.None? { return None; }
    var rows := scanned.value;
    if rows == [] || JoinCommas(rows[0]) != JoinCommas(HEADER) { return None; }
    rows := rows[1..];
    var sheets: seq<Sheet<V>> := [];
    for i := 0 to |rows|
      invariant DecodeRows(sheets, rows[i..], codec) == DecodeText(text, codec)
    {
      assert rows[i..][1..] == rows[i + 1..];
      var next := AddToSheets(sheets, rows[i], codec);
      if next.None? { return None; }
      sheets := next.value;
    }
    return Some(sheets);
  }

  // ---------------------------------------------------------------- decoding undoes printing

  lemma {:induction false} DecodeConcat<V(!new)>(sheets: seq<Sheet<V>>, a: seq<Row>, b: seq<Row>, codec: Codec<V>)
    ensures DecodeRows(sheets, a + b, codec)
         == match DecodeRows(sheets, a, codec) { case None => None case Some(mid) => DecodeRows(mid, b, codec) }
    decreases |a|
  {
    if a == [] {
      assert a + b == b;
    } else {
      assert (a + b)[1..] == a[1..] + b;
      match AddToSheets(sheets, a[0], codec)
      case None =>
      case Some(next) => DecodeConcat(next, a[1..], b, codec);
    }
  }

  lemma IndexCellValue(index: nat)
    requires index < 10
    ensures |IndexCell(index)| == 1 && IndexCell(index)[0] as int - '0' as int == index
    ensures index < 3 ==> '0' <= IndexCell(index)[0] <= '2'
  {
  }

  /** A row for the sheet being filled changes that sheet alone. */
  lemma AddToOpenSheet<V(!new)>(done: seq<Sheet<V>>, sheet: Sheet<V>, row: Row, codec: Codec<V>)
    requires |done| < 3 && |row| == 7 && row[0] == IndexCell(|done|)
    ensures AddToSheets(done + [sheet], row, codec)
         == match AddRow(sheet, row, codec) { case None => None case Some(s) => Some(done + [s]) }
    ensures sheet == Sheet([], [], []) ==> AddToSheets(done, row, codec) == AddToSheets(done + [sheet], row, codec)
  {
    IndexCellValue(|done|);
    assert (done + [sheet])[|done|] == sheet;
    match AddRow(sheet, row, codec)
    case None =>
    case Some(s) => assert (done + [sheet])[|done| := s] == done + [s];
  }

  predicate MetaKeysOnly<V>(entries: Entries<V>) { forall i :: 0 <= i < |entries| ==> IsMetaKey(entries[i].0) }

  predicate InputKeysOnly<V>(entries: Entries<V>) { forall i :: 0 <= i < |entries| ==> IsInputKey(entries[i].0) }

  lemma NotYetDefined<V>(entries: Entries<V>, i: nat)
    requires i < |entries| && DistinctKeys(entries)
    ensures !HasKey(entries[..i], entries[i].0)
    ensures entries[..i] + [entries[i]] == entries[..i + 1]
  {
  }

  lemma {:induction false} DecodeMeta<V(!new)>(done: seq<Sheet<V>>, entries: Entries<V>, i: nat, codec: Codec<V>)
    requires codec.Inverse() && |done| < 3 && i <= |entries|
    requires DistinctKeys(entries) && MetaKeysOnly(entries)
    ensures DecodeRows(done + [Sheet(entries[..i], [], [])], EntryRows(|done|, "meta", entries, codec)[i..], codec)
         == Some(done + [Sheet(entries, [], [])])
    decreases |entries| - i
  {
    var rows := EntryRows(|done|, "meta", entries, codec);
    if i == |entries| {
      assert entries[..i] == entries;
    } else {
      AddToOpenSheet(done, Sheet(entries[..i], [], []), rows[i], codec);
      NotYetDefined(entries, i);
      assert AddRow(Sheet(entries[..i], [], []), rows[i], codec) == Some(Sheet(entries[..i + 1], [], []));
      DecodeMeta(done, entries, i + 1, codec);
      assert rows[i..][1..] == rows[i + 1..];
    }
  }

  lemma {:induction false} DecodeInputs<V(!new)>(done: seq<Sheet<V>>, meta: Entries<V>, entries: Entries<V>, i: nat,
      codec: Codec<V>)
    requires codec.Inverse() && |done| < 3 && i <= |entries|
    requires DistinctKeys(entries)
    requires InputKeysOnly(entries[..i])
    ensures DecodeRows(done + [Sheet(meta, entries[..i], [])], EntryRows(|done|, "input", entries, codec)[i..], codec)
         == if InputKeysOnly(entries) then Some(done + [Sheet(meta, entries, [])]) else None
    decreases |entries| - i
  {
    var rows := EntryRows(|done|, "input", entries, codec);
    if i == |entries| {
      assert entries[..i] == entries;
    } else {
      AddToOpenSheet(done, Sheet(meta, entries[..i], []), rows[i], codec);
      assert rows[i..][0] == rows[i];
      if IsInputKey(entries[i].0) {
        NotYetDefined(entries, i);
        assert AddRow(Sheet(meta, entries[..i], []), rows[i], codec) == Some(Sheet(meta, entries[..i + 1], []));
        DecodeInputs(done, meta, entries, i + 1, codec);
        assert rows[i..][1..] == rows[i + 1..];
      } else {
        assert AddRow(Sheet(meta, entries[..i], []), rows[i], codec) == None;
      }
    }
  }

  lemma {:induction false} DecodeEvidence<V(!new)>(
      done: seq<Sheet<V>>, meta: Entries<V>, inputs: Entries<V>, evidence: seq<Evidence<V>>, i: nat, codec: Codec<V>)
    requires codec.Inverse() && |done| < 3 && i <= |evidence|
    ensures DecodeRows(done + [Sheet(meta, inputs, evidence[..i])], EvidenceRows(|done|, evidence, codec)[i..], codec)
         == Some(done + [Sheet(meta, inputs, evidence)])
    decreases |evidence| - i
  {
    var rows := EvidenceRows(|done|, evidence, codec);
    if i == |evidence| {
      assert evidence[..i] == evidence;
    } else {
      AddToOpenSheet(done, Sheet(meta, inputs, evidence[..i]), rows[i], codec);
      assert evidence[..i] + [evidence[i]] == evidence[..i + 1];
      assert AddRow(Sheet(meta, inputs, evidence[..i]), rows[i], codec) == Some(Sheet(meta, inputs, evidence[..i + 1]));
      DecodeEvidence(done, meta, inputs, evidence, i + 1, codec);
      assert rows[i..][1..] == rows[i + 1..];
    }
  }

  lemma DecodeSheet<V(!new)>(done: seq<Sheet<V>>, w: Worksheet<V>, codec: Codec<V>)
    requires codec.Inverse() && |done| < 3 && DistinctKeys(w.inputs)
    ensures DecodeRows(done, SheetRows(|done|, w, codec), codec)
         == if InputKeysOnly(w.inputs) then Some(done + [AsSheet(w)]) else None
  {
    var ps := Properties(w);
    var meta := EntryRows(|done|, "meta", ps, codec);
    var inputs := EntryRows(|done|, "input", w.inputs, codec);
    var evidence := EvidenceRows(|done|, w.evidence, codec);
    DecodeConcat(done, meta + inputs, evidence, codec);
    DecodeConcat(done, meta, inputs, codec);
    DecodeMeta(done, ps, 0, codec);
    AddToOpenSheet(done, Sheet([], [], []), meta[0], codec);
    assert meta[0..] == meta;
    assert DecodeRows(done, meta, codec) == Some(done + [Sheet(ps, [], [])]);
    DecodeInputs(done, ps, w.inputs, 0, codec);
    assert w.inputs[..0] == [] && inputs[0..] == inputs;
    if InputKeysOnly(w.inputs) {
      DecodeEvidence(done, ps, w.inputs, w.evidence, 0, codec);
      assert w.evidence[..0] == [] && evidence[0..] == evidence;
    }
  }

  function AsSheets<V>(ws: seq<Worksheet<V>>): (sheets: seq<Sheet<V>>)
    ensures |sheets| == |ws|
  {
    seq(|ws|, i requires 0 <= i < |ws| => AsSheet(ws[i]))
  }

  ghost predicate KeysReadable<V>(ws: seq<Worksheet<V>>) { forall w :: w in ws ==> InputKeysOnly(w.inputs) }

  lemma {:induction false} DecodeSheets<V(!new)>(ws: seq<Worksheet<V>>, index: nat, codec: Codec<V>)
    requires codec.Inverse() && index <= |ws| <= 3
    requires forall w :: w in ws ==> DistinctKeys(w.inputs)
    ensures DecodeRows(AsSheets(ws)[..index], RowsFrom(ws, index, codec), codec)
         == if KeysReadable(ws[index..]) then Some(AsSheets(ws)) else None
    decreases |ws| - index
  {
    var done := AsSheets(ws)[..index];
    if index == |ws| {
      assert done == AsSheets(ws);
    } else {
      DecodeConcat(done, SheetRows(index, ws[index], codec), RowsFrom(ws, index + 1, codec), codec);
      DecodeSheet(done, ws[index], codec);
      assert ws[index..] == [ws[index]] + ws[index + 1..];
      if InputKeysOnly(ws[index].inputs) {
        assert done + [AsSheet(ws[index])] == AsSheets(ws)[..index + 1];
        DecodeSheets(ws, index + 1, codec);
      } else {
        assert ws[index] in ws[index..];
      }
    }
  }

  lemma PrintedRowsHaveText<V(!new)>(ws: seq<Worksheet<V>>, index: nat, codec: Codec<V>)
    requires index <= |ws| <= 3
    ensures forall i :: 0 <= i < |RowsFrom(ws, index, codec)| ==>
      |RowsFrom(ws, index, codec)[i]| == 7 && RowsFrom(ws, index, codec)[i][0] != ""
    decreases |ws| - index
  {
    if index < |ws| {
      PrintedRowsHaveText(ws, index + 1, codec);
    }
  }

  /**
   Whatever the printer accepts, the parser reads back: the same metadata, inputs and evidence in the
   same order, exactly when every input key fits the field-key pattern; otherwise the text is refused.
   */
  lemma WorksheetRoundTrip<V(!new)>(ws: seq<Worksheet<V>>, codec: Codec<V>)
    requires codec.Inverse() && 1 <= |ws| <= 3
    requires forall w :: w in ws ==> DistinctKeys(w.inputs)
    ensures DecodeText(RenderRows([HEADER] + RowsFrom(ws, 0, codec)), codec)
         == if KeysReadable(ws) then Some(AsSheets(ws)) else None
  {
    var body := RowsFrom(ws, 0, codec);
    var rows := [HEADER] + body;
    assert AsSheets(ws)[..0] == [] && ws[0..] == ws;
    assert rows[1..] == body && rows[0] == HEADER;
    hide *;
    PrintedRowsAreFull(ws, codec);
    DecodedRows(rows, codec);
    DecodeSheets(ws, 0, codec);
  }

  predicate AllFull(rows: seq<Row>) {
    forall i :: 0 <= i < |rows| ==> rows[i] != [] && HasText(rows[i]) && rows[i] != [""]
  }

  /** Printed rows of text under the header are decoded one by one. */
  lemma DecodedRows<V(!new)>(rows: seq<Row>, codec: Codec<V>)
    requires rows != [] && rows[0] == HEADER && AllFull(rows)
    ensures DecodeText(RenderRows(rows), codec) == DecodeRows([], rows[1..], codec)
  {
    hide Scan, DecodeRows, JoinCommas, HasText, Kept, RenderRows, HEADER;
    CsvTextRoundTrip(rows);
  }

  lemma PrintedRowsAreFull<V(!new)>(ws: seq<Worksheet<V>>, codec: Codec<V>)
    requires 1 <= |ws| <= 3
    ensures AllFull([HEADER] + RowsFrom(ws, 0, codec))
  {
    var body := RowsFrom(ws, 0, codec);
    var rows := [HEADER] + body;
    PrintedRowsHaveText(ws, 0, codec);
    HeaderIsFull();
    hide HEADER, RowsFrom, HasText;
    forall i | 0 <= i < |rows| ensures rows[i] != [] && HasText(rows[i]) && rows[i] != [""] {
      if i > 0 {
        assert rows[i] == body[i - 1];
        FilledRowIsFull(rows[i]);
      }
    }
  }

  lemma HeaderIsFull()
    ensures HEADER != [] && HasText(HEADER) && HEADER != [""]
  {
    assert HEADER[0] == "plan";
  }

  lemma FilledRowIsFull(row: seq<string>)
    requires |row| == 7 && row[0] != ""
    ensures row != [] && HasText(row) && row != [""]
  {
  }

  function PriceSheet<V>(v: V): Worksheet<V> { Worksheet(v, v, v, v, v, [("Price", v)], []) }

  lemma PriceIsNoInputKey<V>(v: V)
    ensures !KeysReadable([PriceSheet(v)]) && DistinctKeys(PriceSheet(v).inputs)
  {
    assert "Price"[0] == 'P' && PriceSheet(v) in [PriceSheet(v)];
    assert !IsInputKey(PriceSheet(v).inputs[0].0);
  }

  /**
   A sheet with the single input "Price", a capital letter where the pattern wants a small one: printed, but refused
   when read.
   */
  lemma CapitalKeyIsRefused<V(!new)>(v: V, codec: Codec<V>)
    requires codec.Inverse()
    ensures DecodeText(RenderRows([HEADER] + RowsFrom([PriceSheet(v)], 0, codec)), codec) == None
  {
    hide DecodeText, RenderRows, RowsFrom, PriceSheet, KeysReadable, DistinctKeys, HEADER;
    PriceIsNoInputKey(v);
    WorksheetRoundTrip([PriceSheet(v)], codec);
  }
}
