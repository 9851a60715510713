/** The draft store: saving with an expected revision and all-or-nothing import, each one serialized transaction. */
module DraftTransactions {
  import opened DraftRecords
  import opened Integers
  import opened LaunchTerms
  import opened Options
  import opened Texts

  /** Records by key; the key path of the object store makes the id of a record its key. */
  type Store = map<Json, Record>

  datatype Failure =
    | MalformedRecord | RevisionConflict | HostRequired | StoreFull | InvalidDraft
    | TooLarge | NotJson | Unsupported | ImportConflict

  // ---------------------------------------------------------------- saving

  /** What the editor hands over; an empty id asks for a new one, and None stands for a property left undefined. */
  datatype SaveInput = SaveInput(
    id: string, title: string, description: string, price: string, launch: Option<Json>, workflow: Option<Json>)

  datatype SaveResult = Saved(draft: Record) | NotSaved(reason: Failure)

  function DraftKey(input: SaveInput, freshId: string): Json { Str(if input.id != "" then input.id else freshId) }

  function RevisionOf(previous: Option<Record>): Option<int> {
    if previous.Some? && Revision in previous.value && previous.value[Revision].Num?
    then Some(previous.value[Revision].n) else None
  }

  function OrPrevious(given: Option<Json>, previous: Option<Record>, name: Name): Json {
    if given.Some? then given.value
    else if previous.Some? && name in previous.value then previous.value[name]
    else Null
  }

  function NumberOr(previous: Option<Record>, name: Name, otherwise: int): int {
    if previous.Some? && name in previous.value && previous.value[name].Num? then previous.value[name].n else otherwise
  }

  predicate TextDiffers(workflow: Json, title: string, description: string) {
    !(workflow.StrAt(Title) && workflow.at[Title].s == title
      && workflow.StrAt(Description) && workflow.at[Description].s == description)
  }

  function KeptWorkflow(given: Json, title: string, description: string): Json {
    if Truthy(given) && TextDiffers(given, title, description) then ClearMark(given) else given
  }

  /** The record a save wants to write. */
  function Candidate(previous: Option<Record>, input: SaveInput, id: Json, now: int): (r: Record)
    ensures Id in r && r[Id] == id
  {
    hide ClearMark, Trim, Truthy, TextDiffers, KeptWorkflow;
    var title := Trim(input.title);
    var workflow := KeptWorkflow(OrPrevious(input.workflow, previous, Workflow), title, input.description);
    var base := map[
      Id := id, Title := Str(title), Description := Str(input.description), Price := Str(input.price),
      Launch := OrPrevious(input.launch, previous, Launch),
      Revision := Num(NumberOr(previous, Revision, 0) + 1),
      CreatedAt := Num(NumberOr(previous, CreatedAt, now)),
      UpdatedAt := Num(Max(now, NumberOr(previous, UpdatedAt, 0)))];
    if workflow.Null? then base else base[Workflow := workflow]
  }

  predicate HadWorkflow(previous: Option<Record>) {
    previous.Some? && Workflow in previous.value && Truthy(previous.value[Workflow])
  }

  /** The save transaction as a function of the store it finds. */
  function SaveTx(s: Store, input: SaveInput, expected: Option<int>, allowNewWorkflow: bool, freshId: string, now: int)
      : (r: (Store, SaveResult)) {
    hide Candidate, ValidDraft, NormalizeStored;
    var id := DraftKey(input, freshId);
    if id in s && NormalizeStored(s[id]).None? then (s, NotSaved(MalformedRecord))
    else
      var previous := if id in s then NormalizeStored(s[id]) else None;
      if RevisionOf(previous) != expected then (s, NotSaved(RevisionConflict))
      else if input.workflow.Some? && Truthy(input.workflow.value) && !HadWorkflow(previous) && !allowNewWorkflow then
        (s, NotSaved(HostRequired))
      else if previous.None? && |s| >= MAX_DRAFTS then (s, NotSaved(StoreFull))
      else
        var draft := Candidate(previous, input, id, now);
        if !ValidDraft(draft, false) then (s, NotSaved(InvalidDraft)) else (s[id := draft], Saved(draft))
  }

  // ---------------------------------------------------------------- importing

  const SCHEMA_V1 := "commerce.local-drafts/v1"
  const SCHEMA_V2 := "commerce.local-drafts/v2"
  const SCHEMA_V3 := "commerce.local-drafts/v3"
  const TRANSFER_BYTES := 8000000

  function FormKeys(schema: string): set<Name> {
    if schema == SCHEMA_V1 then LEGACY_KEYS else if schema == SCHEMA_V2 then V2_KEYS else KEYS
  }

  predicate ItemOk(item: Json, schema: string) {
    item.Obj? && ValidDraft(item.at, schema == SCHEMA_V1) && item.at.Keys == FormKeys(schema)
  }

  predicate DocumentOk(v: Json) {
    && v.Obj? && v.at.Keys == {Drafts, Schema}
    && v.at[Schema].Str? && v.at[Schema].s in [SCHEMA_V1, SCHEMA_V2, SCHEMA_V3]
    && v.at[Drafts].Arr? && |v.at[Drafts].items| <= MAX_DRAFTS
    && (forall i :: 0 <= i < |v.at[Drafts].items| ==> ItemOk(v.at[Drafts].items[i], v.at[Schema].s))
    && (forall i, j :: 0 <= i < j < |v.at[Drafts].items| ==>
          v.at[Drafts].items[i].at[Id] != v.at[Drafts].items[j].at[Id])
  }

  datatype Parsed = Incoming(drafts: seq<Record>) | Rejected(reason: Failure)

  function ReadItem(item: Json): Record
    requires item.Obj? && Stored(item.at)
  {
    NormalizeGivesNormal(item.at);
    Unmarked(NormalizeStored(item.at).value)
  }

  function ParseImport(parse: string -> Option<Json>, text: string): Parsed {
    if Utf8Length(text) > TRANSFER_BYTES then Rejected(TooLarge)
    else
      match parse(text)
      case None => Rejected(NotJson)
      case Some(value) =>
        if !DocumentOk(value) then Rejected(Unsupported)
        else
          var items := value.at[Drafts].items;
          Incoming(seq(|items|, i requires 0 <= i < |items| => ReadItem(items[i])))
  }

  predicate HasId(d: Record) { Id in d }

  /** A draft already there under the same id that differs in some field. */
  predicate Conflicts(s: Store, d: Record)
    requires HasId(d)
  {
    var id := d[Id];
    id in s && NormalizeStored(s[id]).Some? && DiffersInSomeKey(NormalizeStored(s[id]).value, d)
  }

  predicate DiffersInSomeKey(a: Record, b: Record) {
    exists key :: key in KEYS && ((key in a) != (key in b) || (key in a && a[key] != b[key]))
  }

  predicate AllHaveIds(ds: seq<Record>) { forall i :: 0 <= i < |ds| ==> HasId(ds[i]) }

  function Additions(s: Store, incoming: seq<Record>): (r: seq<Record>)
    requires AllHaveIds(incoming)
    ensures AllHaveIds(r)
  {
    if incoming == [] then []
    else
      var d := incoming[|incoming| - 1];
      Additions(s, incoming[..|incoming| - 1]) + (if d[Id] in s then [] else [d])
  }

  function Put(s: Store, d: Record): Store
    requires HasId(d)
  {
    s[d[Id] := d]
  }

  function AddAll(s: Store, ds: seq<Record>): Store
    requires AllHaveIds(ds)
  {
    if ds == [] then s else Put(AddAll(s, ds[..|ds| - 1]), ds[|ds| - 1])
  }

  datatype ImportResult = Imported(count: nat) | NotImported(reason: Failure)

  predicate NeedsHost(incoming: seq<Record>) {
    exists i :: 0 <= i < |incoming| && Workflow in incoming[i] && Truthy(incoming[i][Workflow])
  }

  predicate AllReadable(s: Store) { forall k :: k in s ==> NormalizeStored(s[k]).Some? }

  predicate SomeConflict(s: Store, incoming: seq<Record>)
    requires AllHaveIds(incoming)
  {
    exists i :: 0 <= i < |incoming| && Conflicts(s, incoming[i])
  }

  lemma IncomingIsNormal(parse: string -> Option<Json>, text: string)
    requires ParseImport(parse, text).Incoming?
    ensures var ds := ParseImport(parse, text).drafts;
      && AllHaveIds(ds) && |ds| <= MAX_DRAFTS
      && (forall i :: 0 <= i < |ds| ==> Normal(ds[i]) && !HasMark(ds[i]))
      && (forall i, j :: 0 <= i < j < |ds| ==> ds[i][Id] != ds[j][Id])
  {
    hide ValidDraft, NormalizeStored, Normal, Unmarked, FormKeys, HasMark;
    var value := parse(text).value;
    var items := value.at[Drafts].items;
    forall i | 0 <= i < |items|
      ensures Normal(ReadItem(items[i])) && !HasMark(ReadItem(items[i]))
      ensures HasId(ReadItem(items[i])) && Id in items[i].at && ReadItem(items[i])[Id] == items[i].at[Id]
    {
      assert ItemOk(items[i], value.at[Schema].s);
      NormalizeGivesNormal(items[i].at);
      var n := NormalizeStored(items[i].at).value;
      UnmarkedIsNormal(n);
      StoredHasId(items[i].at);
      NormalIsStored(Unmarked(n));
      StoredHasId(Unmarked(n));
    }
  }

  lemma NormalIsStored(n: Record)
    requires Normal(n)
    ensures Stored(n) && n.Keys == KEYS
  {
  }

  lemma StoredHasId(r: Record)
    requires Stored(r)
    ensures HasId(r)
  {
  }

  /** The import transaction: parse, authorize, then add every new draft or none. */
  function ImportTx(parse: string -> Option<Json>, s: Store, text: string, authorized: bool)
    : (r: (Store, ImportResult))
  {
    match ParseImport(parse, text)
    case Rejected(reason) => (s, NotImported(reason))
    case Incoming(incoming) =>
      IncomingIsNormal(parse, text);
      if NeedsHost(incoming) && !authorized then (s, NotImported(HostRequired))
      else if !AllReadable(s) then (s, NotImported(MalformedRecord))
      else if SomeConflict(s, incoming) then (s, NotImported(ImportConflict))
      else
        var additions := Additions(s, incoming);
        if |s| + |additions| > MAX_DRAFTS then (s, NotImported(StoreFull))
        else (AddAll(s, additions), Imported(|additions|))
  }

  /** Compares every incoming draft with the one already there and gathers those that are new. */
  method CollectAdditions(s: Store, incoming: seq<Record>) returns (conflict: bool, additions: seq<Record>)
    requires AllHaveIds(incoming)
    ensures conflict <==> SomeConflict(s, incoming)
    ensures !conflict ==> additions == Additions(s, incoming)
  {
    hide Conflicts;
    conflict, additions := false, [];
    for i := 0 to |incoming|
      invariant additions == Additions(s, incoming[..i])
      invariant forall j :: 0 <= j < i ==> !Conflicts(s, incoming[j])
    {
      if Conflicts(s, incoming[i]) { return true, additions; }
      assert incoming[..i + 1][..i] == incoming[..i];
      if incoming[i][Id] !in s { additions := additions + [incoming[i]]; }
    }
    assert incoming[..|incoming|] == incoming;
  }

  // ---------------------------------------------------------------- the store

  class DraftStore {
    var drafts: Store

    constructor ()
      ensures drafts == map[]
    {
      drafts := map[];
    }

    /** Writes a draft if the caller saw its latest revision; a refused save leaves the store as it was. */
    method SaveDraft(input: SaveInput, expected: Option<int>, allowNewWorkflow: bool, freshId: string, now: int)
      returns (result: SaveResult)
      modifies this
      ensures (drafts, result) == SaveTx(old(drafts), input, expected, allowNewWorkflow, freshId, now)
      ensures result.NotSaved? ==> drafts == old(drafts)
    {
      hide Candidate, ValidDraft, NormalizeStored, Truthy, HadWorkflow, RevisionOf;
      var id := Str(if input.id != "" then input.id else freshId);
      var previous := None;
      if id in drafts {
        previous := NormalizeStored(drafts[id]);
        if previous.None? { return NotSaved(MalformedRecord); }
      }
      if RevisionOf(previous) != expected { return NotSaved(RevisionConflict); }
      if input.workflow.Some? && Truthy(input.workflow.value) && !HadWorkflow(previous) && !allowNewWorkflow {
        return NotSaved(HostRequired);
      }
      if previous.None? && |drafts| >= MAX_DRAFTS { return NotSaved(StoreFull); }
      var draft := Candidate(previous, input, id, now);
      if !ValidDraft(draft, false) { return NotSaved(InvalidDraft); }
      drafts := drafts[id := draft];
      result := Saved(draft);
    }

    method AddDrafts(additions: seq<Record>)
      requires AllHaveIds(additions)
      modifies this
      ensures drafts == AddAll(old(drafts), additions)
    {
      hide Put;
      for i := 0 to |additions|
        invariant drafts == AddAll(old(drafts), additions[..i])
      {
        assert additions[..i + 1][..i] == additions[..i];
        drafts := Put(drafts, additions[i]);
      }
      assert additions[..|additions|] == additions;
    }

    /** Adds the drafts of an export that are not there yet; the first conflict abandons the whole transaction. */
    method ImportDrafts(parse: string -> Option<Json>, text: string, authorized: bool) returns (result: ImportResult)
      modifies this
      ensures (drafts, result) == ImportTx(parse, old(drafts), text, authorized)
      ensures result.NotImported? ==> drafts == old(drafts)
    {
      var parsed := ParseImport(parse, text);
      if parsed.Rejected? { return NotImported(parsed.reason); }
      IncomingIsNormal(parse, text);
      hide ParseImport, Normal, HasMark, AddAll, NeedsHost, AllReadable, SomeConflict, Additions;
      var incoming := parsed.drafts;
      if NeedsHost(incoming) && !authorized { return NotImported(HostRequired); }
      if !AllReadable(drafts) { return NotImported(MalformedRecord); }
      var conflict, additions := CollectAdditions(drafts, incoming);
      if conflict { return NotImported(ImportConflict); }
      if |drafts| + |additions| > MAX_DRAFTS { return NotImported(StoreFull); }
      AddDrafts(additions);
      result := Imported(|additions|);
    }
  }
}
