/** Exporting all drafts as one JSON document, and what importing that document does. */
module DraftTransfer {
  import opened DraftRecords
  import opened DraftRuns
  import opened DraftTransactions
  import opened LaunchTerms
  import opened Options
  import opened Texts

  /** JSON text of plain values. */
  datatype Codec = Codec(stringify: Json -> string, parse: string -> Option<Json>) {
    ghost predicate Inverse() {
      forall v :: Plain(v) ==> parse(stringify(v)) == Some(v)
    }
  }

  ghost predicate ListsKeys(order: seq<Name>, keys: set<Name>) {
    (forall k :: k in keys <==> k in order) && forall i, j :: 0 <= i < j < |order| ==> order[i] != order[j]
  }

  /** The values JSON text carries exactly: safe integers, and objects whose keys are listed once each. */
  ghost predicate Plain(v: Json) {
    match v
    case Null => true
    case Bool(_) => true
    case Num(_) => SafeInteger(v)
    case Fraction(_) => false
    case Str(_) => true
    case Arr(items) => forall i :: 0 <= i < |items| ==> Plain(items[i])
    case Obj(order, at) => ListsKeys(order, at.Keys) && forall k :: k in at ==> Plain(at[k])
  }

  // ---------------------------------------------------------------- exporting

  const V2_ORDER: seq<Name> := [Id, Title, Description, Price, Launch, Revision, CreatedAt, UpdatedAt]
  const KEY_ORDER: seq<Name> := V2_ORDER + [Workflow]

  function DraftJson(r: Record): Json { Obj(if Workflow in r then KEY_ORDER else V2_ORDER, r) }

  /** The keys of the store in the order of the list, each once. */
  ghost predicate Lists(order: seq<Json>, s: Store) {
    && |order| == |s| && (forall k :: k in s ==> k in order) && (forall i :: 0 <= i < |order| ==> order[i] in s)
    && forall i, j :: 0 <= i < j < |order| ==> order[i] != order[j]
  }

  function Listed(s: Store, order: seq<Json>): seq<Record>
    requires forall i :: 0 <= i < |order| ==> order[i] in s && Stored(s[order[i]])
  {
    seq(|order|, i requires 0 <= i < |order| =>
      NormalizeGivesNormal(s[order[i]]); NormalizeStored(s[order[i]]).value)
  }

  predicate AnyWorkflow(drafts: seq<Record>) {
    exists i :: 0 <= i < |drafts| && Workflow in drafts[i] && !drafts[i][Workflow].Null?
  }

  function Document(drafts: seq<Record>): Json {
    var workflows := AnyWorkflow(drafts);
    Obj([Schema, Drafts], map[
      Schema := Str(if workflows then SCHEMA_V3 else SCHEMA_V2),
      Drafts := Arr(seq(|drafts|, i requires 0 <= i < |drafts| =>
        DraftJson(if workflows then drafts[i] else drafts[i] - {Workflow})))])
  }

  function ExportDrafts(codec: Codec, s: Store, order: seq<Json>): string
    requires forall i :: 0 <= i < |order| ==> order[i] in s && Stored(s[order[i]])
  {
    codec.stringify(Document(Listed(s, order)))
  }

  // ---------------------------------------------------------------- the document is plain

  /** The keys of stored workflow objects are listed once each, as those of every object are. */
  ghost predicate WorkflowInOrder(r: Record) {
    Workflow in r && r[Workflow].Obj? ==> ListsKeys(r[Workflow].order, r[Workflow].at.Keys)
  }

  function OrderPosition(k: Name): int {
    match k
    case AcquisitionCostMinor => 0
    case AgentCostMinor => 1
    case AgentId => 2
    case Audience => 3
    case Currency => 4
    case DeliveryCostMinor => 5
    case FixedCostMinor => 6
    case MerchantId => 7
    case Outcome => 8
    case PriceMinor => 9
    case ProviderFeeMinor => 10
    case _ => -1
  }

  lemma PositionOfOrder(i: nat)
    requires i < 11
    ensures |TERMS_ORDER| == 11 && TERMS_ORDER[i] in TERMS_KEYS && OrderPosition(TERMS_ORDER[i]) == i
  {
  }

  lemma OrderAtPosition(k: Name)
    requires k in TERMS_KEYS
    ensures 0 <= OrderPosition(k) < |TERMS_ORDER| && TERMS_ORDER[OrderPosition(k)] == k
  {
  }

  lemma TermsOrderListsKeys()
    ensures ListsKeys(TERMS_ORDER, TERMS_KEYS)
  {
    PositionOfOrder(0);
    forall i | 0 <= i < 11 ensures TERMS_ORDER[i] in TERMS_KEYS && OrderPosition(TERMS_ORDER[i]) == i {
      PositionOfOrder(i);
    }
    forall k | k in TERMS_KEYS
      ensures 0 <= OrderPosition(k) < 11 && TERMS_ORDER[OrderPosition(k)] == k
    {
      OrderAtPosition(k);
    }
    hide OrderPosition;
    ListedByPosition(TERMS_ORDER, TERMS_KEYS, OrderPosition);
  }

  lemma ListedByPosition(order: seq<Name>, keys: set<Name>, position: Name -> int)
    requires forall i :: 0 <= i < |order| ==> order[i] in keys && position(order[i]) == i
    requires forall k :: k in keys ==> 0 <= position(k) < |order| && order[position(k)] == k
    ensures ListsKeys(order, keys)
  {
  }

  lemma TermsArePlain(v: Json)
    requires ValidTerms(v) && v.order == TERMS_ORDER
    ensures Plain(v)
  {
    forall k | k in v.at ensures Plain(v.at[k]) {
      var i := CheckPosition(k);
      assert FieldOk(v, CHECK_ORDER[i]);
      PlainField(v, k);
    }
    hide FieldOk, ListsKeys;
    TermsOrderListsKeys();
  }

  lemma PlainField(v: Json, k: Name)
    requires FieldOk(v, k)
    ensures k in v.at && Plain(v.at[k])
  {
  }

  lemma CheckPosition(k: Name) returns (i: nat)
    requires k in TERMS_KEYS
    ensures i < |CHECK_ORDER| && CHECK_ORDER[i] == k
  {
    match k {
      case MerchantId => i := 0;
      case AgentId => i := 1;
      case Audience => i := 2;
      case Outcome => i := 3;
      case Currency => i := 4;
      case PriceMinor => i := 5;
      case DeliveryCostMinor => i := 6;
      case ProviderFeeMinor => i := 7;
      case AgentCostMinor => i := 8;
      case AcquisitionCostMinor => i := 9;
      case FixedCostMinor => i := 10;
      case _ => assert false;
    }
  }

  lemma WorkflowIsPlain(w: Json)
    requires ValidWorkflow(w) && ListsKeys(w.order, w.at.Keys)
    ensures Plain(w)
  {
    assert w.Obj? && w.at.Keys == WORKFLOW_KEYS;
    hide WORKFLOW_KEYS, ValidWorkflow, ListsKeys;
    forall k | k in w.at ensures Plain(w.at[k]) {
      WorkflowFieldIsPlain(w, k);
    }
  }

  lemma WorkflowFieldIsPlain(w: Json, k: Name)
    requires ValidWorkflow(w) && k in WORKFLOW_KEYS
    ensures Plain(w.at[k])
  {
    hide Trim, Utf16Length, Utf8Length, STATUSES, ListsKeys;
  }

  lemma NormalIsPlain(n: Record)
    requires Normal(n) && WorkflowInOrder(n)
    ensures forall k :: k in n ==> Plain(n[k])
  {
    CoreIsPlain(n);
    KeysOfNormal(n);
    hide Normal, WorkflowInOrder, LEGACY_KEYS, Plain;
    LaunchIsPlain(n);
    JobIsPlain(n);
  }

  lemma KeysOfNormal(n: Record)
    requires Normal(n)
    ensures n.Keys == LEGACY_KEYS + {Launch, Workflow} && Launch in n && Workflow in n
  {
    hide ValidDraft;
  }

  lemma LaunchIsPlain(n: Record)
    requires Normal(n) && WorkflowInOrder(n)
    ensures Launch in n && Plain(n[Launch])
  {
    KeysOfNormal(n);
    hide CoreFields, ValidTerms, ValidWorkflow, Plain, ListsKeys;
    if !n[Launch].Null? { TermsArePlain(n[Launch]); }
    NullIsPlain();
  }

  lemma JobIsPlain(n: Record)
    requires Normal(n) && WorkflowInOrder(n)
    ensures Workflow in n && Plain(n[Workflow])
  {
    KeysOfNormal(n);
    hide CoreFields, ValidTerms, Plain, ListsKeys, RunOk, OutputOk, WORKFLOW_KEYS, STATUSES;
    if !n[Workflow].Null? { WorkflowIsPlain(n[Workflow]); }
    NullIsPlain();
  }

  lemma NullIsPlain()
    ensures Plain(Null)
  {
  }

  lemma CoreIsPlain(r: Record)
    requires CoreFields(r)
    ensures forall k :: k in LEGACY_KEYS ==> Plain(r[k])
  {
  }

  function KeyPosition(k: Name): int {
    match k
    case Id => 0
    case Title => 1
    case Description => 2
    case Price => 3
    case Launch => 4
    case Revision => 5
    case CreatedAt => 6
    case UpdatedAt => 7
    case _ => -1
  }

  lemma KeyAtPosition(i: nat)
    requires i < 8
    ensures |V2_ORDER| == 8 && V2_ORDER[i] in V2_KEYS && KeyPosition(V2_ORDER[i]) == i
  {
  }

  lemma PositionOfKey(k: Name)
    requires k in V2_KEYS
    ensures 0 <= KeyPosition(k) < |V2_ORDER| && V2_ORDER[KeyPosition(k)] == k
  {
  }

  lemma V2OrderListsKeys()
    ensures ListsKeys(V2_ORDER, V2_KEYS)
  {
    KeyAtPosition(0);
    forall i | 0 <= i < 8 ensures V2_ORDER[i] in V2_KEYS && KeyPosition(V2_ORDER[i]) == i { KeyAtPosition(i); }
    forall k | k in V2_KEYS ensures 0 <= KeyPosition(k) < 8 && V2_ORDER[KeyPosition(k)] == k { PositionOfKey(k); }
    hide KeyPosition;
    ListedByPosition(V2_ORDER, V2_KEYS, KeyPosition);
  }

  lemma OneMoreKey(order: seq<Name>, keys: set<Name>, k: Name)
    requires ListsKeys(order, keys) && k !in keys
    ensures ListsKeys(order + [k], keys + {k})
  {
  }

  lemma KeyOrderLists()
    ensures ListsKeys(V2_ORDER, V2_KEYS) && ListsKeys(KEY_ORDER, KEYS)
  {
    hide ListsKeys;
    V2OrderListsKeys();
    OneMoreKey(V2_ORDER, V2_KEYS, Workflow);
    assert V2_KEYS + {Workflow} == KEYS;
  }

  lemma DraftIsPlain(r: Record)
    requires r.Keys == KEYS || r.Keys == V2_KEYS
    requires forall k :: k in r ==> Plain(r[k])
    ensures Plain(DraftJson(r))
  {
    KeyOrderLists();
    hide ListsKeys;
  }

  ghost predicate Exportable(drafts: seq<Record>) {
    && |drafts| <= MAX_DRAFTS
    && (forall i :: 0 <= i < |drafts| ==> Normal(drafts[i]) && WorkflowInOrder(drafts[i]))
    && (forall i, j :: 0 <= i < j < |drafts| ==> !SameId(drafts[i], drafts[j]))
  }

  predicate SameId(a: Record, b: Record) { Id in a && Id in b && a[Id] == b[Id] }

  lemma ItemFacts(drafts: seq<Record>, i: nat)
    requires Exportable(drafts) && i < |drafts|
    ensures var item := Document(drafts).at[Drafts].items[i];
      && Plain(item) && ItemOk(item, Document(drafts).at[Schema].s)
      && Stored(item.at) && Id in item.at && Id in drafts[i] && item.at[Id] == drafts[i][Id]
      && ReadItem(item) == Unmarked(drafts[i])
  {
    hide ValidDraft, NormalizeStored, Unmarked, Plain, WorkflowInOrder;
    var n := drafts[i];
    NormalIsPlain(n);
    NormalIsStored(n);
    SchemasDiffer();
    if AnyWorkflow(drafts) {
      NormalizeIsIdempotent(n);
      DraftIsPlain(n);
    } else {
      var m := n - {Workflow};
      assert n[Workflow].Null?;
      NormalizeRestoresWorkflowKey(n);
      DraftIsPlain(m);
    }
  }

  lemma SchemasDiffer()
    ensures SCHEMA_V1 != SCHEMA_V2 && SCHEMA_V1 != SCHEMA_V3 && SCHEMA_V2 != SCHEMA_V3
  {
    assert SCHEMA_V1[23] != SCHEMA_V2[23] && SCHEMA_V1[23] != SCHEMA_V3[23] && SCHEMA_V2[23] != SCHEMA_V3[23];
  }

  /** The items of an exported document. */
  function ItemsOf(drafts: seq<Record>): seq<Json> { Document(drafts).at[Drafts].items }

  ghost predicate PlainItem(item: Json, schema: string, draft: Record) {
    Plain(item) && ItemOk(item, schema) && item.Obj? && SameId(item.at, draft)
  }

  lemma ItemsInOrder(drafts: seq<Record>)
    requires Exportable(drafts)
    ensures forall i :: 0 <= i < |drafts| ==> PlainItem(ItemsOf(drafts)[i], Document(drafts).at[Schema].s, drafts[i])
  {
    hide ItemOk, ReadItem, Unmarked, Exportable, Plain;
    forall i | 0 <= i < |drafts|
      ensures PlainItem(ItemsOf(drafts)[i], Document(drafts).at[Schema].s, drafts[i])
    {
      ItemFacts(drafts, i);
    }
  }

  lemma ItemIdsDiffer(drafts: seq<Record>, i: nat, j: nat)
    requires Exportable(drafts) && i < j < |drafts|
    ensures var items := ItemsOf(drafts);
      items[i].Obj? && items[j].Obj? && Id in items[i].at && Id in items[j].at && items[i].at[Id] != items[j].at[Id]
  {
    hide ItemOk, Plain;
    ItemsInOrder(drafts);
    assert PlainItem(ItemsOf(drafts)[i], Document(drafts).at[Schema].s, drafts[i]);
    assert PlainItem(ItemsOf(drafts)[j], Document(drafts).at[Schema].s, drafts[j]);
    assert !SameId(drafts[i], drafts[j]);
  }

  lemma DocumentIsOk(drafts: seq<Record>)
    requires Exportable(drafts)
    ensures DocumentOk(Document(drafts))
  {
    hide ItemOk, Plain, SameId;
    ItemsInOrder(drafts);
    var (doc, items) := (Document(drafts), ItemsOf(drafts));
    forall i | 0 <= i < |items| ensures ItemOk(items[i], doc.at[Schema].s) {
      assert PlainItem(items[i], doc.at[Schema].s, drafts[i]);
    }
    hide Exportable, PlainItem;
    forall i, j | 0 <= i < j < |items| ensures items[i].at[Id] != items[j].at[Id] {
      ItemIdsDiffer(drafts, i, j);
    }
  }

  lemma DocumentIsPlain(drafts: seq<Record>)
    requires Exportable(drafts)
    ensures Plain(Document(drafts)) && DocumentOk(Document(drafts))
  {
    DocumentIsOk(drafts);
    ItemsInOrder(drafts);
    hide ItemOk, SameId, DocumentOk, Exportable;
    var (doc, items) := (Document(drafts), ItemsOf(drafts));
    forall i | 0 <= i < |items| ensures Plain(items[i]) {
      assert PlainItem(items[i], doc.at[Schema].s, drafts[i]);
    }
    assert Plain(doc.at[Drafts]) && Plain(doc.at[Schema]);
  }

  /**
   Parsing an exported document gives the exported drafts without their review marks, in both forms of the document.
   */
  lemma ParseOfDocument(codec: Codec, drafts: seq<Record>)
    requires codec.Inverse() && Exportable(drafts)
    ensures var text := codec.stringify(Document(drafts));
      if Utf8Length(text) > TRANSFER_BYTES then ParseImport(codec.parse, text) == Rejected(TooLarge)
      else
        ParseImport(codec.parse, text)
        == Incoming(seq(|drafts|, i requires 0 <= i < |drafts| => Unmarked(drafts[i])))
  {
    hide DocumentOk, Unmarked, Plain, Document;
    DocumentIsPlain(drafts);
    ItemsOfDocument(drafts);
  }

  lemma ItemsOfDocument(drafts: seq<Record>)
    requires Exportable(drafts) && DocumentOk(Document(drafts))
    ensures var items := Document(drafts).at[Drafts].items;
      seq(|items|, i requires 0 <= i < |items| => ReadItem(items[i]))
        == seq(|drafts|, i requires 0 <= i < |drafts| => Unmarked(drafts[i]))
  {
    var items := Document(drafts).at[Drafts].items;
    assert |items| == |drafts|;
    hide ItemOk, ReadItem, Unmarked, Document, Exportable, DocumentOk;
    forall i | 0 <= i < |drafts| ensures ReadItem(items[i]) == Unmarked(drafts[i]) {
      ItemFacts(drafts, i);
    }
  }

  // ---------------------------------------------------------------- importing an export

  ghost predicate ObjectsInOrder(s: Store) { forall k :: k in s ==> WorkflowInOrder(s[k]) }

  /** A valid store and an order to export it in. */
  ghost predicate ExportOrder(s: Store, order: seq<Json>) { Valid(s) && Lists(order, s) && ObjectsInOrder(s) }

  predicate HasWorkflow(r: Record) { Workflow in r && !r[Workflow].Null? }

  ghost predicate SomeWorkflow(s: Store) { exists k :: k in s && HasWorkflow(s[k]) }

  ghost predicate SomeMark(s: Store) { exists k :: k in s && HasMark(s[k]) }

  /** A store as an import into an empty one rebuilds it. */
  ghost function WithoutMarks(s: Store): Store
    requires Valid(s)
  {
    hide NormalizeStored, Unmarked;
    map k | k in s :: (assert Sound(s[k]); NormalizeGivesNormal(s[k]); Unmarked(NormalizeStored(s[k]).value))
  }

  lemma ListedFacts(s: Store, order: seq<Json>, i: nat)
    requires ExportOrder(s, order) && i < |order|
    ensures order[i] in s && Stored(s[order[i]])
    ensures var n := NormalizeStored(s[order[i]]);
      && n.Some? && Normal(n.value) && Stored(n.value) && WorkflowInOrder(n.value) && Id in n.value
        && n.value[Id] == order[i]
      && (HasMark(n.value) <==> HasMark(s[order[i]]))
      && (Truthy(n.value[Workflow]) <==> HasWorkflow(s[order[i]]))
  {
    var r := s[order[i]];
    assert Sound(r);
    hide ValidDraft, NormalizeStored, Marked;
    NormalizeGivesNormal(r);
    NormalIsStored(NormalizeStored(r).value);
    StoredHasId(r);
    StoredWorkflow(r);
    NullIsUnmarked();
    assert WorkflowInOrder(r);
  }

  lemma NullIsUnmarked()
    ensures !Marked(Null) && !Truthy(Null)
  {
  }

  lemma StoredWorkflow(r: Record)
    requires Stored(r)
    ensures Workflow in r ==> r[Workflow].Null? || r[Workflow].Obj?
    ensures Workflow in r ==> (Truthy(r[Workflow]) <==> !r[Workflow].Null?)
  {
  }

  lemma ListedIsExportable(s: Store, order: seq<Json>)
    requires ExportOrder(s, order)
    ensures forall i :: 0 <= i < |order| ==> order[i] in s && Stored(s[order[i]])
    ensures Exportable(Listed(s, order))
  {
    hide Stored, NormalizeStored, HasMark, Normal, WorkflowInOrder, Truthy, Valid, ObjectsInOrder;
    forall i | 0 <= i < |order| ensures order[i] in s && Stored(s[order[i]]) {
      ListedFacts(s, order, i);
    }
    var drafts := Listed(s, order);
    assert |drafts| <= MAX_DRAFTS by { ValidSize(s); }
    forall i | 0 <= i < |order|
      ensures Normal(drafts[i]) && WorkflowInOrder(drafts[i]) && Id in drafts[i] && drafts[i][Id] == order[i]
    {
      ListedFacts(s, order, i);
    }
  }

  lemma RereadWorkflow(s: Store, order: seq<Json>, i: nat)
    requires ExportOrder(s, order) && i < |order|
    ensures order[i] in s && Workflow in Reread(s, order)[i]
    ensures Truthy(Reread(s, order)[i][Workflow]) <==> HasWorkflow(s[order[i]])
  {
    hide Stored, NormalizeStored, HasMark, Normal, WorkflowInOrder, Truthy, Valid, ObjectsInOrder, Unmarked, Marked,
      Lists;
    ListedFacts(s, order, i);
    UnmarkedWorkflow(NormalizeStored(s[order[i]]).value);
  }

  lemma HostIsNeededForWorkflows(s: Store, order: seq<Json>)
    requires ExportOrder(s, order)
    ensures NeedsHost(Reread(s, order)) <==> SomeWorkflow(s)
  {
    hide Truthy, Valid, ObjectsInOrder, Reread, HasWorkflow;
    var incoming := Reread(s, order);
    forall i | 0 <= i < |order|
      ensures order[i] in s && Workflow in incoming[i] && (Truthy(incoming[i][Workflow]) <==> HasWorkflow(s[order[i]]))
    {
      RereadWorkflow(s, order, i);
    }
    if SomeWorkflow(s) {
      var k :| k in s && HasWorkflow(s[k]);
      var i :| 0 <= i < |order| && order[i] == k;
      assert Truthy(incoming[i][Workflow]);
    }
  }

  lemma ValidSize(s: Store)
    requires Valid(s)
    ensures |s| <= MAX_DRAFTS
  {
  }

  lemma UnmarkedWorkflow(n: Record)
    requires Normal(n)
    ensures Workflow in n && Workflow in Unmarked(n)
    ensures Truthy(Unmarked(n)[Workflow]) <==> Truthy(n[Workflow])
  {
    hide ValidDraft;
  }

  /** The drafts an import reads from the export of a store. */
  ghost function Reread(s: Store, order: seq<Json>): (r: seq<Record>)
    requires ExportOrder(s, order)
    ensures |r| == |order|
  {
    ListedIsExportable(s, order);
    seq(|order|, i requires 0 <= i < |order| => Unmarked(Listed(s, order)[i]))
  }

  /** The draft is what an import reads for its id. */
  ghost predicate IsRead(s: Store, d: Record)
    requires Valid(s)
  {
    Id in d && d[Id] in s && d[Id] in WithoutMarks(s) && d == WithoutMarks(s)[d[Id]]
  }

  lemma RereadFacts(s: Store, order: seq<Json>, i: nat)
    requires ExportOrder(s, order) && i < |order|
    ensures IsRead(s, Reread(s, order)[i]) && order[i] in s && Reread(s, order)[i][Id] == order[i]
  {
    ListedFacts(s, order, i);
    UnmarkedId(NormalizeStored(s[order[i]]).value);
    hide Stored, HasMark, Normal, WorkflowInOrder, Truthy, Valid, ObjectsInOrder, Unmarked, NormalizeStored, Lists,
      Marked;
  }

  lemma UnmarkedId(n: Record)
    requires Normal(n)
    ensures Id in n && Id in Unmarked(n) && Unmarked(n)[Id] == n[Id]
  {
    hide ValidDraft, ClearMark, Truthy;
  }

  lemma ConflictIsMark(s: Store, d: Record)
    requires Valid(s) && IsRead(s, d)
    ensures Conflicts(s, d) <==> HasMark(s[d[Id]])
  {
    var r := s[d[Id]];
    assert Sound(r);
    NormalizeGivesNormal(r);
    MarksDiffer(NormalizeStored(r).value);
    SameMark(r);
    hide ValidDraft, HasMark, Normal, Truthy, Unmarked, NormalizeStored, DiffersInSomeKey, MarkJustified;
  }

  lemma SameMark(r: Record)
    requires Stored(r)
    ensures NormalizeStored(r).Some? && (HasMark(NormalizeStored(r).value) <==> HasMark(r))
  {
    hide ValidDraft, NormalizeStored, Marked;
    NormalizeGivesNormal(r);
    NormalIsStored(NormalizeStored(r).value);
    NullIsUnmarked();
  }

  lemma MarksDiffer(n: Record)
    requires Normal(n)
    ensures Id in Unmarked(n) && Id in n && Unmarked(n)[Id] == n[Id]
    ensures DiffersInSomeKey(n, Unmarked(n)) <==> HasMark(n)
  {
    UnmarkedIsNormal(n);
    NormalIsStored(n);
    NormalIsStored(Unmarked(n));
    hide HasMark, Normal, Unmarked, Stored, SameCore;
    if !DiffersInSomeKey(n, Unmarked(n)) {
      assert n == Unmarked(n);
    }
  }

  /** The import transaction past the parser, one branch a line. */
  lemma ImportOfIncoming(parse: string -> Option<Json>, s: Store, text: string, authorized: bool, incoming: seq<Record>)
    requires ParseImport(parse, text) == Incoming(incoming)
    ensures AllHaveIds(incoming)
    ensures ImportTx(parse, s, text, authorized)
      == if NeedsHost(incoming) && !authorized then (s, NotImported(HostRequired))
         else if !AllReadable(s) then (s, NotImported(MalformedRecord))
         else if SomeConflict(s, incoming) then (s, NotImported(ImportConflict))
         else if |s| + |Additions(s, incoming)| > MAX_DRAFTS then (s, NotImported(StoreFull))
         else (AddAll(s, Additions(s, incoming)), Imported(|Additions(s, incoming)|))
  {
    IncomingIsNormal(parse, text);
    hide ParseImport, NeedsHost, AllReadable, SomeConflict, Additions, AddAll, Normal, HasMark;
  }

  lemma ImportOfRejected(parse: string -> Option<Json>, s: Store, text: string, authorized: bool)
    requires ParseImport(parse, text).Rejected?
    ensures ImportTx(parse, s, text, authorized) == (s, NotImported(ParseImport(parse, text).reason))
  {
    hide ParseImport;
  }

  /** What the parser makes of an export. */
  lemma ParseOfExport(codec: Codec, s: Store, order: seq<Json>)
    requires codec.Inverse() && ExportOrder(s, order)
    ensures forall i :: 0 <= i < |order| ==> order[i] in s && Stored(s[order[i]])
    ensures var text := ExportDrafts(codec, s, order);
      if Utf8Length(text) > TRANSFER_BYTES then ParseImport(codec.parse, text) == Rejected(TooLarge)
      else ParseImport(codec.parse, text) == Incoming(Reread(s, order))
    ensures NeedsHost(Reread(s, order)) <==> SomeWorkflow(s)
  {
    hide ParseImport, Document, Stored, NeedsHost, SomeWorkflow, Unmarked;
    ListedIsExportable(s, order);
    ParseOfDocument(codec, Listed(s, order));
    HostIsNeededForWorkflows(s, order);
  }

  /** Into an empty store an export rebuilds every draft, read and unmarked; a job in it needs the host's consent. */
  lemma ImportIntoEmpty(codec: Codec, s: Store, order: seq<Json>, authorized: bool)
    requires codec.Inverse() && ExportOrder(s, order)
    ensures forall i :: 0 <= i < |order| ==> order[i] in s && Stored(s[order[i]])
    ensures var text := ExportDrafts(codec, s, order);
      var (s', result) := ImportTx(codec.parse, map[], text, authorized);
      && (result.Imported? <==> Utf8Length(text) <= TRANSFER_BYTES && (authorized || !SomeWorkflow(s)))
      && (result.Imported? ==> s' == WithoutMarks(s) && result.count == |s|)
      && (result.NotImported? ==> s' == map[])
  {
    hide ImportTx, ParseImport, ExportDrafts, Reread, WithoutMarks, NeedsHost, SomeWorkflow, Stored;
    ParseOfExport(codec, s, order);
    var text := ExportDrafts(codec, s, order);
    var incoming := Reread(s, order);
    if Utf8Length(text) > TRANSFER_BYTES {
      ImportOfRejected(codec.parse, map[], text, authorized);
    } else {
      ImportOfIncoming(codec.parse, map[], text, authorized, incoming);
      AllAreAdditions(incoming);
      NoConflictWithNothing(incoming);
      AddedToEmpty(s, order, incoming);
      ValidSize(s);
    }
  }

  lemma NoConflictWithNothing(incoming: seq<Record>)
    requires AllHaveIds(incoming)
    ensures !SomeConflict(map[], incoming) && AllReadable(map[])
  {
  }

  lemma {:induction false} AllAreAdditions(incoming: seq<Record>)
    requires AllHaveIds(incoming)
    ensures Additions(map[], incoming) == incoming
  {
    if incoming != [] {
      AllAreAdditions(incoming[..|incoming| - 1]);
    }
  }

  lemma AddedToEmpty(s: Store, order: seq<Json>, incoming: seq<Record>)
    requires ExportOrder(s, order) && incoming == Reread(s, order) && AllHaveIds(incoming)
    ensures AddAll(map[], incoming) == WithoutMarks(s)
  {
    WithoutMarksKeys(s);
    hide Reread, Valid, WithoutMarks, AddAll, ObjectsInOrder, Union;
    forall i | 0 <= i < |incoming| ensures IsRead(s, incoming[i]) && incoming[i][Id] == order[i] {
      RereadFacts(s, order, i);
    }
    AddedDrafts(map[], incoming);
    SameDraftsSameStore(WithoutMarks(s), AddAll(map[], incoming), incoming);
  }

  lemma SameDraftsSameStore(w: Store, m: Store, ds: seq<Record>)
    requires Union(map[], ds, m) && |ds| == |w.Keys|
    requires forall i :: 0 <= i < |ds| ==> Id in ds[i] && ds[i][Id] in w && ds[i] == w[ds[i][Id]]
    ensures m == w
  {
    forall k | k in m ensures k in w && m[k] == w[k] {
      assert ListedAs(ds, k, m[k]);
    }
    assert |m.Keys| == |m|;
    SubsetOfSameSize(m.Keys, w.Keys);
  }

  lemma WithoutMarksKeys(s: Store)
    requires Valid(s)
    ensures WithoutMarks(s).Keys == s.Keys
  {
  }

  lemma {:induction false} SubsetOfSameSize(a: set<Json>, b: set<Json>)
    requires a <= b && |a| == |b|
    ensures a == b
  {
    if a != {} {
      var x :| x in a;
      SubsetOfSameSize(a - {x}, b - {x});
      assert a == (a - {x}) + {x} && b == (b - {x}) + {x};
    } else {
      assert b == {};
    }
  }

  /** Into the same store an export adds nothing: accepted when no draft carries a review mark, refused otherwise. */
  lemma ImportIntoSame(codec: Codec, s: Store, order: seq<Json>, authorized: bool)
    requires codec.Inverse() && ExportOrder(s, order)
    ensures forall i :: 0 <= i < |order| ==> order[i] in s && Stored(s[order[i]])
    ensures var text := ExportDrafts(codec, s, order);
      var (s', result) := ImportTx(codec.parse, s, text, authorized);
      && s' == s
      && (result.Imported? <==>
            Utf8Length(text) <= TRANSFER_BYTES && (authorized || !SomeWorkflow(s)) && !SomeMark(s))
      && (result.Imported? ==> result.count == 0)
  {
    hide ImportTx, ParseImport, ExportDrafts, Reread, NeedsHost, SomeWorkflow, Stored, SomeConflict, AllReadable;
    ParseOfExport(codec, s, order);
    var text := ExportDrafts(codec, s, order);
    var incoming := Reread(s, order);
    if Utf8Length(text) > TRANSFER_BYTES {
      ImportOfRejected(codec.parse, s, text, authorized);
    } else {
      ImportOfIncoming(codec.parse, s, text, authorized, incoming);
      ConflictsAreMarks(s, order, incoming);
      NothingNew(s, order, incoming);
      ValidIsReadable(s);
      ValidSize(s);
    }
  }

  lemma ValidIsReadable(s: Store)
    requires Valid(s)
    ensures AllReadable(s)
  {
    hide NormalizeStored, ValidDraft;
    forall k | k in s ensures NormalizeStored(s[k]).Some? {
      assert Sound(s[k]);
      NormalizeGivesNormal(s[k]);
    }
  }

  lemma ConflictsAreMarks(s: Store, order: seq<Json>, incoming: seq<Record>)
    requires ExportOrder(s, order)
    requires incoming == Reread(s, order) && AllHaveIds(incoming)
    ensures SomeConflict(s, incoming) <==> SomeMark(s)
  {
    hide Reread, Valid, HasMark, Conflicts, ObjectsInOrder;
    forall i | 0 <= i < |order| ensures order[i] in s && (Conflicts(s, incoming[i]) <==> HasMark(s[order[i]])) {
      RereadFacts(s, order, i);
      ConflictIsMark(s, incoming[i]);
    }
    if SomeMark(s) {
      var k :| k in s && HasMark(s[k]);
      var i :| 0 <= i < |order| && order[i] == k;
      assert Conflicts(s, incoming[i]);
    }
  }

  lemma NothingNew(s: Store, order: seq<Json>, incoming: seq<Record>)
    requires ExportOrder(s, order)
    requires incoming == Reread(s, order) && AllHaveIds(incoming)
    ensures Additions(s, incoming) == []
  {
    hide Reread, Valid, ObjectsInOrder;
    forall i | 0 <= i < |incoming| ensures incoming[i][Id] in s {
      RereadFacts(s, order, i);
    }
    NoAdditions(s, incoming);
  }

  lemma {:induction false} NoAdditions(s: Store, incoming: seq<Record>)
    requires AllHaveIds(incoming) && forall i :: 0 <= i < |incoming| ==> incoming[i][Id] in s
    ensures Additions(s, incoming) == []
  {
    if incoming != [] {
      NoAdditions(s, incoming[..|incoming| - 1]);
    }
  }
}
