/** Stored drafts: which records are valid, and the one form that reading gives to the three forms ever written. */
module DraftRecords {
  import opened LaunchTerms
  import opened Options
  import opened Texts

  /** A record as the object store holds it; the order of its own keys is never observed. */
  type Record = map<Name, Json>

  const LEGACY_KEYS: set<Name> := {CreatedAt, Description, Id, Price, Revision, Title, UpdatedAt}
  const V2_KEYS: set<Name> := {CreatedAt, Description, Id, Launch, Price, Revision, Title, UpdatedAt}
  const KEYS: set<Name> := {CreatedAt, Description, Id, Launch, Price, Revision, Title, UpdatedAt, Workflow}
  const WORKFLOW_KEYS: set<Name> :=
    {Description, InputRevision, OutputDigest, ReviewedDigest, RunId, Status, OutputText, Title}

  const MAX_DRAFTS := 100

  // ---------------------------------------------------------------- workflows

  predicate Hexadecimal(s: string) { forall i :: 0 <= i < |s| ==> IsHex(s[i]) }

  predicate HashText(v: Json) { v.Str? && |v.s| == 64 && Hexadecimal(v.s) }

  const RUN_PREFIX := "listing-"
  const STATUSES: set<string> :=
    {"queued", "planning", "running", "completed", "blocked", "canceled", "pending", "idle", "reconciling",
      "synthesizing"}

  predicate RunOk(w: Json)
    requires w.Obj? && w.at.Keys == WORKFLOW_KEYS
  {
    var run := w.at[RunId];
    if run.Null? then w.at[Status] == Str("queued")
    else run.Str? && RUN_PREFIX <= run.s && HashText(Str(run.s[|RUN_PREFIX|..]))
  }

  predicate Completed(w: Json)
    requires w.Obj? && w.at.Keys == WORKFLOW_KEYS
  {
    w.at[Status] == Str("completed")
  }

  predicate OutputOk(w: Json)
    requires w.Obj? && w.at.Keys == WORKFLOW_KEYS
  {
    if Completed(w) then
      w.at[OutputText].Str? && Trim(w.at[OutputText].s) != "" && Utf8Length(w.at[OutputText].s) <= 16000
      && HashText(w.at[OutputDigest])
    else w.at[OutputText].Null? && w.at[OutputDigest].Null?
  }

  /** Everything a workflow must satisfy apart from its review mark. */
  predicate WorkflowCore(w: Json) {
    && w.Obj? && w.at.Keys == WORKFLOW_KEYS
    && w.at[Title].Str? && Trim(w.at[Title].s) != "" && Utf16Length(w.at[Title].s) <= 120
    && w.at[Description].Str? && Utf16Length(w.at[Description].s) <= 10000
    && SafeInteger(w.at[InputRevision]) && w.at[InputRevision].n > 0
    && RunOk(w)
    && w.at[Status].Str? && w.at[Status].s in STATUSES
    && OutputOk(w)
  }

  predicate ValidWorkflow(w: Json) {
    WorkflowCore(w)
    && (w.at[ReviewedDigest].Null? || (Completed(w) && w.at[ReviewedDigest] == w.at[OutputDigest]))
  }

  /** The spread of a workflow with its review mark removed; anything that is not an object stays unusable. */
  function ClearMark(w: Json): Json {
    if !w.Obj? then w
    else Obj(if ReviewedDigest in w.at then w.order else w.order + [ReviewedDigest], w.at[ReviewedDigest := Null])
  }

  predicate Marked(w: Json) { w.Obj? && ReviewedDigest in w.at && !w.at[ReviewedDigest].Null? }

  /** Clearing the mark turns a workflow that is otherwise in order into a valid unmarked one. */
  lemma ClearedIsValid(w: Json)
    requires w.Obj? && WorkflowCore(w)
    ensures ValidWorkflow(ClearMark(w)) && !Marked(ClearMark(w))
    ensures ClearMark(w).at == w.at[ReviewedDigest := Null] && ClearMark(w).order == w.order
  {
    assert ReviewedDigest in WORKFLOW_KEYS;
    hide WORKFLOW_KEYS, STATUSES, Trim, Utf16Length, Utf8Length, SafeInteger, HashText;
    var c := ClearMark(w);
    assert c.at.Keys == w.at.Keys;
    assert c.at == w.at[ReviewedDigest := Null];
  }

  /** An unmarked valid workflow is left as it is. */
  lemma ClearUnmarked(w: Json)
    requires ValidWorkflow(w)
    ensures ClearMark(w) == w <==> !Marked(w)
  {
    if !Marked(w) { assert w.at[ReviewedDigest := Null] == w.at; }
  }

  // ---------------------------------------------------------------- drafts

  predicate DraftId(s: string) {
    |s| == 36 && forall i :: 0 <= i < 36 ==> IsHex(s[i]) || s[i] == '-'
  }

  /** The seven fields that every form of a draft has. */
  predicate CoreFields(r: Record) {
    && LEGACY_KEYS <= r.Keys
    && r[Id].Str? && DraftId(r[Id].s)
    && r[Title].Str? && Utf16Length(r[Title].s) <= 120 && Trim(r[Title].s) != ""
    && r[Description].Str? && Utf16Length(r[Description].s) <= 10000
    && r[Price].Str? && Utf16Length(r[Price].s) <= 120
    && SafeInteger(r[Revision]) && r[Revision].n > 0
    && SafeInteger(r[CreatedAt]) && r[CreatedAt].n > 0
    && SafeInteger(r[UpdatedAt]) && r[UpdatedAt].n >= r[CreatedAt].n
  }

  predicate LaunchOk(v: Json) { v.Null? || ValidTerms(v) }

  predicate WorkflowOk(v: Json, revision: int) {
    v.Null? || (ValidWorkflow(v) && v.at[InputRevision].n <= revision)
  }

  predicate ValidDraft(r: Record, legacy: bool) {
    && (if legacy then r.Keys == LEGACY_KEYS else r.Keys == V2_KEYS || r.Keys == KEYS)
    && CoreFields(r)
    && (legacy || LaunchOk(r[Launch]))
    && (Workflow in r ==> WorkflowOk(r[Workflow], r[Revision].n))
  }

  /** Readable in any of the three forms. */
  predicate Stored(r: Record) { ValidDraft(r, true) || ValidDraft(r, false) }

  function NormalLaunch(v: Json): Json
    requires v.Null? || TermsShape(v)
  {
    if v.Null? then Null else Obj(TERMS_ORDER, map k | k in TERMS_KEYS :: v.at[k])
  }

  /** Reads a stored record: absent launch and workflow become null, launch terms are rebuilt in key order. */
  function NormalizeStored(r: Record): Option<Record> {
    if ValidDraft(r, true) then Some(r[Launch := Null][Workflow := Null])
    else if !ValidDraft(r, false) then None
    else Some(r[Workflow := if Workflow in r then r[Workflow] else Null][Launch := NormalLaunch(r[Launch])])
  }

  /** A record as reading returns it: all nine keys, launch terms in key order. */
  predicate Normal(r: Record) {
    r.Keys == KEYS && ValidDraft(r, false) && (r[Launch].Null? || r[Launch].order == TERMS_ORDER)
  }

  predicate SameCore(a: Record, b: Record)
    requires LEGACY_KEYS <= a.Keys && LEGACY_KEYS <= b.Keys
  {
    && a[Id] == b[Id] && a[Title] == b[Title] && a[Description] == b[Description] && a[Price] == b[Price]
    && a[Revision] == b[Revision] && a[CreatedAt] == b[CreatedAt] && a[UpdatedAt] == b[UpdatedAt]
  }

  lemma SameCoreFields(a: Record, b: Record)
    requires CoreFields(a) && LEGACY_KEYS <= b.Keys && SameCore(a, b)
    ensures CoreFields(b)
  {
  }

  lemma NormalLaunchIsValid(v: Json)
    requires LaunchOk(v)
    ensures LaunchOk(NormalLaunch(v))
    ensures NormalLaunch(v) == v <==> v.Null? || v.order == TERMS_ORDER
    ensures v.Obj? ==> NormalLaunch(v).Obj? && NormalLaunch(v).at == v.at && NormalLaunch(v).order == TERMS_ORDER
  {
    if v.Obj? {
      var n := NormalLaunch(v);
      assert n.at == v.at;
      SameFieldsPass(v, n);
    }
  }

  lemma SameFieldsPass(a: Json, b: Json)
    requires a.Obj? && b.Obj? && a.at == b.at && ValidTerms(a)
    ensures ValidTerms(b)
  {
    forall i | 0 <= i < |CHECK_ORDER| ensures FieldOk(b, CHECK_ORDER[i]) {
      assert FieldOk(a, CHECK_ORDER[i]);
    }
  }

  /** Exactly the stored records can be read; reading keeps the core and gives a normal record. */
  lemma NormalizeGivesNormal(r: Record)
    ensures NormalizeStored(r).Some? <==> Stored(r)
    ensures Stored(r) ==> Normal(NormalizeStored(r).value) && SameCore(r, NormalizeStored(r).value)
    ensures Stored(r) ==> NormalizeStored(r).value[Workflow] == if Workflow in r then r[Workflow] else Null
  {
    hide CoreFields, LaunchOk, WorkflowOk, NormalLaunch, ValidTerms;
    if ValidDraft(r, true) {
      var n := r[Launch := Null][Workflow := Null];
      CoreHolds(r, true);
      SameCoreFields(r, n);
      assert n.Keys == KEYS;
      NullIsOk(n[Revision].n);
    } else if ValidDraft(r, false) {
      CoreHolds(r, false);
      var n := NormalizeStored(r).value;
      NormalLaunchIsValid(r[Launch]);
      assert n.Keys == KEYS;
      SameCoreFields(r, n);
      NullIsOk(n[Revision].n);
      LaunchShape(r[Launch]);
    }
  }

  lemma CoreHolds(r: Record, legacy: bool)
    requires ValidDraft(r, legacy)
    ensures LEGACY_KEYS <= r.Keys && CoreFields(r) && r[Revision].Num? && r[CreatedAt].Num? && r[UpdatedAt].Num?
      && r[Id].Str?
  {
  }

  lemma NullIsOk(revision: int)
    ensures LaunchOk(Null) && WorkflowOk(Null, revision)
  {
  }

  lemma LaunchShape(v: Json)
    requires LaunchOk(v)
    ensures v.Null? || v.Obj?
  {
  }

  /** Reading what was read changes nothing. */
  lemma NormalizeIsIdempotent(n: Record)
    requires Normal(n)
    ensures NormalizeStored(n) == Some(n)
  {
    hide CoreFields, WorkflowOk, NormalLaunch, LaunchOk;
    assert Workflow in n && n.Keys != LEGACY_KEYS;
    NormalLaunchIsValid(n[Launch]);
    assert n[Workflow := n[Workflow]][Launch := n[Launch]] == n;
  }

  /** A normal record without a workflow comes back from the form that has no workflow key. */
  lemma NormalizeRestoresWorkflowKey(n: Record)
    requires Normal(n) && n[Workflow].Null?
    ensures ValidDraft(n - {Workflow}, false) && (n - {Workflow}).Keys == V2_KEYS
    ensures NormalizeStored(n - {Workflow}) == Some(n)
  {
    hide CoreFields, WorkflowOk, NormalLaunch, LaunchOk;
    var m := n - {Workflow};
    assert m.Keys == V2_KEYS;
    CoreHolds(n, false);
    SameCoreFields(n, m);
    NormalLaunchIsValid(n[Launch]);
    assert m.Keys != LEGACY_KEYS;
    assert m[Workflow := Null][Launch := n[Launch]] == n;
  }

  // ---------------------------------------------------------------- review marks on drafts

  /** A review mark is there only while the text is the one that was reviewed. */
  predicate MarkJustified(r: Record)
    requires Stored(r)
  {
    if Workflow in r && Marked(r[Workflow])
    then r[Workflow].at[Title] == r[Title] && r[Workflow].at[Description] == r[Description]
    else true
  }

  predicate HasMark(n: Record) { Workflow in n && Marked(n[Workflow]) }

  /** What importing makes of a normal draft: its workflow, if any, loses the mark. */
  function Unmarked(n: Record): Record {
    if Workflow in n && Truthy(n[Workflow]) then n[Workflow := ClearMark(n[Workflow])] else n
  }

  lemma UnmarkedIsNormal(n: Record)
    requires Normal(n)
    ensures Normal(Unmarked(n)) && !HasMark(Unmarked(n))
    ensures SameCore(n, Unmarked(n))
    ensures Unmarked(n) == n <==> !HasMark(n)
    ensures forall k :: k in KEYS && k != Workflow ==> Unmarked(n)[k] == n[k]
  {
    var w := n[Workflow];
    if w.Obj? {
      hide CoreFields, LaunchOk, ValidWorkflow;
      WorkflowParts(w, n[Revision].n);
      ClearedIsValid(w);
      ClearUnmarked(w);
      var u := Unmarked(n);
      assert u.Keys == n.Keys;
      CoreHolds(n, false);
      SameCoreFields(n, u);
      WorkflowStaysOk(w, n[Revision].n);
      if !HasMark(n) { assert n[Workflow := w] == n; }
    } else {
      assert w.Null?;
    }
  }

  lemma WorkflowParts(w: Json, revision: int)
    requires w.Obj? && WorkflowOk(w, revision)
    ensures ValidWorkflow(w) && WorkflowCore(w) && w.at[InputRevision].n <= revision
  {
  }

  lemma WorkflowStaysOk(w: Json, revision: int)
    requires w.Obj? && WorkflowOk(w, revision)
    ensures WorkflowOk(ClearMark(w), revision)
  {
    ClearedIsValid(w);
  }
}
