/** Which documents import, when an import succeeds, and what every draft of the document reads as afterwards. */
module DraftImports {
  import opened DraftRecords
  import opened DraftRuns
  import opened DraftSaves
  import opened DraftTransactions
  import opened LaunchTerms
  import opened Options
  import opened Texts

  // ---------------------------------------------------------------- after an import

  ghost predicate ReadsAsItself(s: Store, d: Record) { Id in d && d[Id] in s && NormalizeStored(s[d[Id]]) == Some(d) }

  /** Drafts of the document that are there already read exactly as in the document. */
  ghost predicate NoneDiffers(s: Store, ds: seq<Record>) {
    forall i :: 0 <= i < |ds| && Id in ds[i] && ds[i][Id] in s ==> ReadsAsItself(s, ds[i])
  }

  ghost function IdsOf(ds: seq<Record>): set<Json> { set i | 0 <= i < |ds| && Id in ds[i] :: ds[i][Id] }

  predicate BringsJob(ds: seq<Record>) {
    exists i :: 0 <= i < |ds| && Workflow in ds[i] && !ds[i][Workflow].Null?
  }

  lemma DiffersMeans(a: Record, b: Record)
    requires a.Keys == KEYS && b.Keys == KEYS
    ensures !DiffersInSomeKey(a, b) <==> a == b
  {
    if !DiffersInSomeKey(a, b) {
      assert forall k :: k in a ==> k in KEYS;
    }
  }

  lemma ConflictMeans(s: Store, d: Record)
    requires Valid(s) && Normal(d) && Id in d
    ensures Conflicts(s, d) <==> d[Id] in s && !ReadsAsItself(s, d)
  {
    hide NormalizeStored, Normal, DiffersInSomeKey;
    if d[Id] in s {
      PreviousIsNormal(s, d[Id]);
      NormalIsStored(d);
      NormalIsStored(NormalizeStored(s[d[Id]]).value);
      DiffersMeans(NormalizeStored(s[d[Id]]).value, d);
    }
  }

  lemma ConflictsMean(s: Store, ds: seq<Record>)
    requires Valid(s) && AllHaveIds(ds) && forall i :: 0 <= i < |ds| ==> Normal(ds[i])
    ensures SomeConflict(s, ds) <==> !NoneDiffers(s, ds)
  {
    hide Conflicts, ReadsAsItself, Normal, Valid;
    forall i | 0 <= i < |ds| ensures Conflicts(s, ds[i]) <==> ds[i][Id] in s && !ReadsAsItself(s, ds[i]) {
      ConflictMeans(s, ds[i]);
    }
  }

  lemma JobsMean(ds: seq<Record>)
    requires forall i :: 0 <= i < |ds| ==> Normal(ds[i])
    ensures NeedsHost(ds) <==> BringsJob(ds)
  {
    forall i | 0 <= i < |ds| ensures Workflow in ds[i] && (Truthy(ds[i][Workflow]) <==> !ds[i][Workflow].Null?) {
      NormalParts(ds[i]);
      NullIsFalse();
    }
    hide Normal, Truthy;
  }

  predicate Holds(m: Store, d: Record) { Id in d && d[Id] in m && m[d[Id]] == d }

  lemma {:induction false} AddedIsThere(s: Store, ds: seq<Record>, i: nat)
    requires AllHaveIds(ds) && DistinctIds(ds) && i < |ds|
    ensures Holds(AddAll(s, ds), ds[i])
    decreases |ds|
  {
    var n := |ds| - 1;
    if i < n {
      AddedIsThere(s, ds[..n], i);
      assert ds[..n][i] == ds[i] && ds[i][Id] != ds[n][Id];
    }
  }

  lemma NewIsThere(s: Store, ds: seq<Record>, d: Record)
    requires AllHaveIds(ds) && DistinctIds(ds) && d in ds && Id in d && d[Id] !in s
    ensures Holds(AddAll(s, Additions(s, ds)), d)
  {
    hide Additions, AddAll, Holds;
    AdditionsMeaning(s, ds, d);
    AdditionsAreDistinct(s, ds);
    var i :| 0 <= i < |Additions(s, ds)| && Additions(s, ds)[i] == d;
    AddedIsThere(s, Additions(s, ds), i);
  }

  lemma AddedUnion(s: Store, ds: seq<Record>)
    requires AllHaveIds(ds) && DistinctIds(ds)
    ensures Union(s, Additions(s, ds), AddAll(s, Additions(s, ds)))
  {
    hide Additions, AddAll, Union;
    AdditionsAreDistinct(s, ds);
    var added := Additions(s, ds);
    forall i | 0 <= i < |added| ensures added[i][Id] !in s { AdditionsMeaning(s, ds, added[i]); }
    AddedDrafts(s, added);
  }

  /** Adding what is new leaves as many drafts as there are ids. */
  lemma AdditionsFill(s: Store, ds: seq<Record>)
    requires AllHaveIds(ds) && DistinctIds(ds)
    ensures AddAll(s, Additions(s, ds)).Keys == s.Keys + IdsOf(ds)
    ensures |s| + |Additions(s, ds)| == |s.Keys + IdsOf(ds)|
  {
    hide Additions, AddAll;
    AddedUnion(s, ds);
    var m := AddAll(s, Additions(s, ds));
    forall k ensures k in m.Keys <==> k in s.Keys + IdsOf(ds) {
      if k in m && k !in s { ListedIsIncoming(s, ds, k, m[k]); }
      if k in IdsOf(ds) && k !in s {
        var i :| 0 <= i < |ds| && Id in ds[i] && k == ds[i][Id];
        NewIsThere(s, ds, ds[i]);
      }
    }
    assert m.Keys == s.Keys + IdsOf(ds) && |m.Keys| == |m|;
  }

  lemma ListedIsIncoming(s: Store, ds: seq<Record>, k: Json, r: Record)
    requires AllHaveIds(ds) && ListedAs(Additions(s, ds), k, r)
    ensures k in IdsOf(ds)
  {
    hide Additions;
    var added := Additions(s, ds);
    var i :| 0 <= i < |added| && Id in added[i] && added[i][Id] == k && added[i] == r;
    AdditionsMeaning(s, ds, added[i]);
    var j :| 0 <= j < |ds| && ds[j] == added[i];
    assert ds[j][Id] == k;
  }

  // ---------------------------------------------------------------- the import

  /** An import succeeds exactly for a readable document with room, no conflict, and jobs the host agrees to. */
  lemma ImportSucceeds(parse: string -> Option<Json>, s: Store, text: string, authorized: bool)
    requires Valid(s)
    ensures ImportTx(parse, s, text, authorized).1.Imported? <==>
      && ParseImport(parse, text).Incoming?
      && (BringsJob(ParseImport(parse, text).drafts) ==> authorized)
      && NoneDiffers(s, ParseImport(parse, text).drafts)
      && |s.Keys + IdsOf(ParseImport(parse, text).drafts)| <= 100
  {
    hide ParseImport, Normal, HasMark, SomeConflict, NeedsHost, Additions, AddAll, BringsJob, NoneDiffers, IdsOf, Valid,
      AllReadable, NormalizeStored;
    EverythingReads(s);
    if ParseImport(parse, text).Incoming? {
      IncomingIsNormal(parse, text);
      var ds := ParseImport(parse, text).drafts;
      ConflictsMean(s, ds);
      JobsMean(ds);
      AdditionsFill(s, ds);
    }
  }

  lemma EverythingReads(s: Store)
    requires Valid(s)
    ensures AllReadable(s)
  {
    hide NormalizeStored, ValidDraft, MarkJustified;
    forall k | k in s ensures NormalizeStored(s[k]).Some? {
      assert Sound(s[k]);
      NormalizeGivesNormal(s[k]);
    }
  }

  /** After an import every draft of the document is there and reads exactly as in the document. */
  lemma ImportReadsBack(parse: string -> Option<Json>, s: Store, text: string, authorized: bool, i: nat)
    requires Valid(s)
    ensures var (s', result) := ImportTx(parse, s, text, authorized);
      result.Imported? && i < |ParseImport(parse, text).drafts| ==>
        ReadsAsItself(s', ParseImport(parse, text).drafts[i])
  {
    hide ParseImport, Normal, HasMark, Additions, AddAll, NormalizeStored, ImportTx, Valid, Union, Holds;
    ImportCases(parse, s, text, authorized);
    ImportSucceeds(parse, s, text, authorized);
    hide BringsJob;
    if ImportTx(parse, s, text, authorized).1.Imported? && i < |ParseImport(parse, text).drafts| {
      IncomingIsNormal(parse, text);
      var ds := ParseImport(parse, text).drafts;
      assert HasId(ds[i]);
      if ds[i][Id] in s {
        AddedUnion(s, ds);
        KeptByUnion(s, Additions(s, ds), AddAll(s, Additions(s, ds)), ds[i][Id]);
      } else {
        NewIsThere(s, ds, ds[i]);
        NormalizeIsIdempotent(ds[i]);
        HeldReads(AddAll(s, Additions(s, ds)), ds[i]);
      }
    }
  }

  lemma KeptByUnion(s: Store, ds: seq<Record>, m: Store, k: Json)
    requires Union(s, ds, m) && k in s
    ensures k in m && m[k] == s[k]
  {
  }

  lemma HeldReads(m: Store, d: Record)
    requires Holds(m, d) && NormalizeStored(d) == Some(d)
    ensures ReadsAsItself(m, d)
  {
  }

  // ---------------------------------------------------------------- the document

  /** A draft of the document in the form of its version. */
  predicate ItemFits(item: Json, keys: set<Name>, legacy: bool) {
    item.Obj? && item.at.Keys == keys && ValidDraft(item.at, legacy)
  }

  predicate SameId(a: Json, b: Json) { a.Obj? && b.Obj? && Id in a.at && Id in b.at && a.at[Id] == b.at[Id] }

  ghost predicate ItemsFit(items: seq<Json>, keys: set<Name>, legacy: bool) {
    && |items| <= 100
    && (forall i :: 0 <= i < |items| ==> ItemFits(items[i], keys, legacy))
    && (forall i, j :: 0 <= i < j < |items| ==> !SameId(items[i], items[j]))
  }

  ghost predicate DocumentFits(v: Json) {
    && v.Obj? && v.at.Keys == {Drafts, Schema} && v.at[Drafts].Arr?
    && (|| (v.at[Schema] == Str("commerce.local-drafts/v1") && ItemsFit(v.at[Drafts].items, LEGACY_KEYS, true))
        || (v.at[Schema] == Str("commerce.local-drafts/v2") && ItemsFit(v.at[Drafts].items, V2_KEYS, false))
        || (v.at[Schema] == Str("commerce.local-drafts/v3") && ItemsFit(v.at[Drafts].items, KEYS, false)))
  }

  /** A draft of a document as it is read: what its form lacks is null, and a job comes without its review mark. */
  ghost predicate ReadsItem(d: Record, item: Json) {
    && item.Obj? && d.Keys == KEYS
    && (forall k :: k in LEGACY_KEYS ==> k in item.at && d[k] == item.at[k])
    && (if Launch in item.at then TermsReadAs(d[Launch], item.at[Launch]) else d[Launch].Null?)
    && (if Workflow !in item.at || item.at[Workflow].Null? then d[Workflow].Null?
        else
          && item.at[Workflow].Obj? && d[Workflow].Obj?
          && d[Workflow].at == item.at[Workflow].at[ReviewedDigest := Null])
  }

  lemma SchemasAreTexts()
    ensures SCHEMA_V1 == "commerce.local-drafts/v1" && SCHEMA_V2 == "commerce.local-drafts/v2"
    ensures SCHEMA_V3 == "commerce.local-drafts/v3"
    ensures SCHEMA_V1 != SCHEMA_V2 && SCHEMA_V1 != SCHEMA_V3 && SCHEMA_V2 != SCHEMA_V3
  {
    assert SCHEMA_V1[|SCHEMA_V1| - 1] == '1' && SCHEMA_V2[|SCHEMA_V2| - 1] == '2' && SCHEMA_V3[|SCHEMA_V3| - 1] == '3';
  }

  lemma ItemMeans(item: Json, schema: string)
    ensures ItemOk(item, schema) <==> ItemFits(item, FormKeys(schema), schema == SCHEMA_V1)
    ensures ItemOk(item, schema) ==> Id in item.at
  {
    hide CoreFields, LaunchOk, WorkflowOk, SCHEMA_V1, SCHEMA_V2;
    assert Id in LEGACY_KEYS;
    if item.Obj? && ValidDraft(item.at, schema == SCHEMA_V1) { CoreHolds(item.at, schema == SCHEMA_V1); }
  }

  lemma ItemsMean(items: seq<Json>, schema: string)
    ensures (&& |items| <= MAX_DRAFTS && (forall i :: 0 <= i < |items| ==> ItemOk(items[i], schema))
             && (forall i, j :: 0 <= i < j < |items| ==> items[i].at[Id] != items[j].at[Id]))
      <==> ItemsFit(items, FormKeys(schema), schema == SCHEMA_V1)
  {
    hide ItemOk, ItemFits, FormKeys, SCHEMA_V1;
    forall i | 0 <= i < |items|
      ensures ItemOk(items[i], schema) <==> ItemFits(items[i], FormKeys(schema), schema == SCHEMA_V1)
      ensures ItemOk(items[i], schema) ==> items[i].Obj? && Id in items[i].at
    {
      ItemMeans(items[i], schema);
      ItemIsObject(items[i], schema);
    }
  }

  lemma ItemIsObject(item: Json, schema: string)
    ensures ItemOk(item, schema) ==> item.Obj?
  {
  }

  lemma DocumentMeans(v: Json)
    ensures DocumentOk(v) <==> DocumentFits(v)
  {
    hide ItemOk, ItemsFit;
    SchemasAreTexts();
    if v.Obj? && v.at.Keys == {Drafts, Schema} && v.at[Drafts].Arr? && v.at[Schema].Str? {
      ItemsMean(v.at[Drafts].items, v.at[Schema].s);
      hide SCHEMA_V1, SCHEMA_V2, SCHEMA_V3;
    }
  }

  /** A text imports exactly if it is short enough, is JSON, and is a document of one of the three versions. */
  lemma ParsesExactly(parse: string -> Option<Json>, text: string)
    ensures ParseImport(parse, text).Incoming?
      <==> Utf8Length(text) <= 8_000_000 && parse(text).Some? && DocumentFits(parse(text).value)
  {
    if parse(text).Some? { DocumentMeans(parse(text).value); }
    hide DocumentOk, DocumentFits;
  }

  /** Every draft is read from its own item. */
  lemma ParsesItems(parse: string -> Option<Json>, text: string, i: nat)
    ensures ParseImport(parse, text).Incoming? ==>
      && parse(text).Some? && DocumentFits(parse(text).value)
      && |ParseImport(parse, text).drafts| == |parse(text).value.at[Drafts].items|
      && (i < |ParseImport(parse, text).drafts| ==>
            ReadsItem(ParseImport(parse, text).drafts[i], parse(text).value.at[Drafts].items[i]))
  {
    hide DocumentFits, ReadsItem, ItemOk;
    ParsesExactly(parse, text);
    if ParseImport(parse, text).Incoming? && i < |ParseImport(parse, text).drafts| {
      var v := parse(text).value;
      ItemReads(v.at[Drafts].items[i], v.at[Schema].s);
    }
  }

  lemma SameCoreEverywhere(a: Record, b: Record)
    requires LEGACY_KEYS <= a.Keys && LEGACY_KEYS <= b.Keys && SameCore(a, b)
    ensures forall k :: k in LEGACY_KEYS ==> a[k] == b[k]
  {
  }

  lemma ItemReads(item: Json, schema: string)
    requires ItemOk(item, schema)
    ensures item.Obj? && Stored(item.at) && ReadsItem(ReadItem(item), item)
  {
    hide ValidDraft, NormalizeStored, Unmarked, Normal, ItemOk, Stored, HasMark, SameCore, LEGACY_KEYS, TermsReadAs;
    ItemIsStored(item, schema);
    NormalizeGivesNormal(item.at);
    var n := NormalizeStored(item.at).value;
    UnmarkedIsNormal(n);
    NormalIsStored(Unmarked(n));
    NormalIsStored(n);
    LegacyWithin();
    SameCoreEverywhere(item.at, n);
    SameCoreEverywhere(n, Unmarked(n));
    UnmarkedJob(n);
    LaunchOfRead(item.at);
    KeepsLaunch(n);
  }

  lemma LegacyWithin()
    ensures LEGACY_KEYS <= KEYS && Launch in KEYS && Workflow in KEYS
  {
  }

  lemma KeepsLaunch(n: Record)
    requires Normal(n)
    ensures Launch in n && Launch in Unmarked(n) && Unmarked(n)[Launch] == n[Launch]
  {
    hide Normal, HasMark, Unmarked;
    UnmarkedIsNormal(n);
    NormalIsStored(n);
    NormalIsStored(Unmarked(n));
  }

  lemma ItemIsStored(item: Json, schema: string)
    requires ItemOk(item, schema)
    ensures item.Obj? && Stored(item.at) && LEGACY_KEYS <= item.at.Keys
  {
    hide CoreFields, LaunchOk, WorkflowOk;
    assert LEGACY_KEYS <= V2_KEYS && LEGACY_KEYS <= KEYS;
  }

  lemma UnmarkedJob(n: Record)
    requires Normal(n)
    ensures Workflow in n && Workflow in Unmarked(n)
    ensures if n[Workflow].Null? then Unmarked(n)[Workflow].Null?
            else n[Workflow].Obj? && Unmarked(n)[Workflow].Obj?
                 && Unmarked(n)[Workflow].at == n[Workflow].at[ReviewedDigest := Null]
  {
    NormalParts(n);
    NullIsFalse();
    hide Normal, Truthy;
  }

  lemma LaunchOfRead(r: Record)
    requires Stored(r)
    ensures NormalizeStored(r).Some? && Launch in NormalizeStored(r).value
    ensures if Launch in r then TermsReadAs(NormalizeStored(r).value[Launch], r[Launch])
            else NormalizeStored(r).value[Launch].Null?
  {
    hide CoreFields, WorkflowOk, NormalLaunch, LaunchOk;
    assert Launch !in LEGACY_KEYS && Launch in V2_KEYS && Launch in KEYS;
    if ValidDraft(r, true) {
    } else {
      LaunchShape(r[Launch]);
      NormalLaunchIsValid(r[Launch]);
    }
  }
}
