/** What holds over every run of the draft store, whichever tabs the serialized transactions come from. */
module DraftRuns {
  import opened DraftRecords
  import opened DraftTransactions
  import opened Integers
  import opened LaunchTerms
  import opened Options
  import opened Texts

  /** All drafts readable, review marks justified, and no more drafts than the workspace holds. */
  ghost predicate Valid(s: Store) {
    (forall k :: k in s ==> Sound(s[k]) && s[k][Id] == k) && |s| <= MAX_DRAFTS
  }

  ghost predicate Sound(r: Record) { Stored(r) && MarkJustified(r) }

  ghost function RevisionIn(s: Store, id: Json): (n: int)
    requires Valid(s)
    ensures id in s ==> n > 0
  {
    if id in s then assert Sound(s[id]); s[id][Revision].n else 0
  }

  /** The draft of an id goes from one store to a later one: never lost, same creation, later update. */
  ghost predicate Carried(s: Store, s': Store, id: Json)
    requires Valid(s) && Valid(s') && id in s
  {
    assert Sound(s[id]);
    id in s' && (assert Sound(s'[id]);
      s'[id][CreatedAt] == s[id][CreatedAt] && s'[id][UpdatedAt].n >= s[id][UpdatedAt].n)
  }

  // ---------------------------------------------------------------- one save

  lemma CandidateFields(previous: Option<Record>, input: SaveInput, id: Json, now: int)
    ensures var d := Candidate(previous, input, id, now);
      && LEGACY_KEYS <= d.Keys && d[Id] == id
      && d[Title] == Str(Trim(input.title)) && d[Description] == Str(input.description) && d[Price] == Str(input.price)
      && d[Revision] == Num(NumberOr(previous, Revision, 0) + 1)
      && d[CreatedAt] == Num(NumberOr(previous, CreatedAt, now))
      && d[UpdatedAt] == Num(Max(now, NumberOr(previous, UpdatedAt, 0)))
      && Launch in d && d[Launch] == OrPrevious(input.launch, previous, Launch)
      && (if Workflow in d then d[Workflow] else Null)
        == KeptWorkflow(OrPrevious(input.workflow, previous, Workflow), Trim(input.title), input.description)
  {
    hide KeptWorkflow, OrPrevious, Trim, NumberOr, Max;
  }

  lemma KeptMarkIsJustified(given: Json, title: string, description: string)
    ensures var w := KeptWorkflow(given, title, description);
      Marked(w) ==>
        w.StrAt(Title) && w.at[Title].s == title && w.StrAt(Description) && w.at[Description].s == description
  {
    if given.Obj? && TextDiffers(given, title, description) {
      assert ClearMark(given).at[ReviewedDigest].Null?;
    }
  }

  lemma SavedIsSound(previous: Option<Record>, input: SaveInput, id: Json, now: int)
    requires ValidDraft(Candidate(previous, input, id, now), false)
    ensures Sound(Candidate(previous, input, id, now))
  {
    hide ValidDraft, Candidate, KeptWorkflow, Marked;
    CandidateFields(previous, input, id, now);
    KeptMarkIsJustified(OrPrevious(input.workflow, previous, Workflow), Trim(input.title), input.description);
  }

  function PreviousIn(s: Store, id: Json): Option<Record> { if id in s then NormalizeStored(s[id]) else None }

  lemma SaveOutcome(s: Store, input: SaveInput, expected: Option<int>, allowNew: bool, freshId: string, now: int)
    ensures var (s', result) := SaveTx(s, input, expected, allowNew, freshId, now);
      var id := DraftKey(input, freshId);
      && (result.NotSaved? ==> s' == s)
      && (result.Saved? ==>
            && result.draft == Candidate(PreviousIn(s, id), input, id, now) && ValidDraft(result.draft, false)
            && RevisionOf(PreviousIn(s, id)) == expected
            && (id in s || |s| < MAX_DRAFTS)
            && s' == s[id := result.draft])
  {
    hide ValidDraft, Candidate, NormalizeStored, RevisionOf, HadWorkflow, Truthy;
  }

  /** The numbers reading keeps, as a save sees them. */
  lemma PreviousNumbers(s: Store, id: Json, now: int)
    requires Valid(s)
    ensures var p := PreviousIn(s, id);
      && RevisionOf(p) == (if id in s then Some(RevisionIn(s, id)) else None)
      && NumberOr(p, Revision, 0) == RevisionIn(s, id)
      && (id in s ==>
            assert Sound(s[id]);
            s[id][CreatedAt] == Num(NumberOr(p, CreatedAt, now)) && s[id][UpdatedAt].n == NumberOr(p, UpdatedAt, 0))
  {
    hide ValidDraft, NormalizeStored, MarkJustified;
    if id in s {
      assert Sound(s[id]);
      NormalizeGivesNormal(s[id]);
      StoredNumbers(s[id]);
    }
  }

  /** What a save does: refused, nothing changes; accepted, exactly its draft moves on by one revision. */
  lemma SaveEffect(s: Store, input: SaveInput, expected: Option<int>, allowNew: bool, freshId: string, now: int)
    requires Valid(s)
    ensures var (s', result) := SaveTx(s, input, expected, allowNew, freshId, now);
      var id := DraftKey(input, freshId);
      && Valid(s')
      && (result.NotSaved? ==> s' == s)
      && (result.Saved? ==>
            && s' == s[id := result.draft]
            && expected == (if id in s then Some(RevisionIn(s, id)) else None)
            && RevisionIn(s', id) == RevisionIn(s, id) + 1
            && (id in s ==> Carried(s, s', id)))
  {
    hide SaveTx, ValidDraft, Candidate, PreviousIn, MarkJustified, NumberOr, RevisionOf, OrPrevious, KeptWorkflow;
    SaveOutcome(s, input, expected, allowNew, freshId, now);
    var (s', result) := SaveTx(s, input, expected, allowNew, freshId, now);
    var id := DraftKey(input, freshId);
    if result.Saved? {
      PreviousNumbers(s, id, now);
      CandidateFields(PreviousIn(s, id), input, id, now);
      SavedIsSound(PreviousIn(s, id), input, id, now);
      forall k | k in s' ensures Sound(s'[k]) && Id in s'[k] && s'[k][Id] == k {
        if k != id { assert k in s && Sound(s[k]); }
        StoredNumbers(s'[k]);
      }
      if id in s { assert Sound(s[id]); assert s' == s[id := s'[id]]; }
    }
  }

  lemma StoredNumbers(r: Record)
    requires Stored(r)
    ensures LEGACY_KEYS <= r.Keys && r[Revision].Num? && r[Revision].n > 0 && r[CreatedAt].Num? && r[UpdatedAt].Num?
  {
  }

  /**
   A saved draft as it reads back: the given texts, the title trimmed; launch terms and job as given, or as they were
   when none are given; the next revision, the first creation time and the latest update.
   */
  lemma SaveReadsBack(s: Store, input: SaveInput, expected: Option<int>, allowNew: bool, freshId: string, now: int)
    requires Valid(s)
    ensures var (s', result) := SaveTx(s, input, expected, allowNew, freshId, now);
      var id := DraftKey(input, freshId);
      result.Saved? ==>
        && id in s' && NormalizeStored(s'[id]).Some? && NormalizeStored(s'[id]).value.Keys == KEYS
        && (id in s ==> NormalizeStored(s[id]).Some?)
        && ReadsAs(NormalizeStored(s'[id]).value, id, if id in s then NormalizeStored(s[id]) else None, input, now)
  {
    hide SaveTx, ValidDraft, Candidate, NormalizeStored, ReadsAs;
    SaveOutcome(s, input, expected, allowNew, freshId, now);
    var id := DraftKey(input, freshId);
    if SaveTx(s, input, expected, allowNew, freshId, now).1.Saved? {
      if id in s { PreviousIsNormal(s, id); } else { NoPrevious(s, id); }
      CandidateReadsBack(PreviousIn(s, id), input, id, now);
    }
  }

  ghost predicate ReadsAs(d: Record, id: Json, previous: Option<Record>, input: SaveInput, now: int)
    requires d.Keys == KEYS
  {
    var title := Trim(input.title);
    && d[Id] == id && d[Title] == Str(title) && d[Description] == Str(input.description) && d[Price] == Str(input.price)
    && NumbersRead(d, previous, now)
    && (match input.launch
        case Some(terms) => TermsReadAs(d[Launch], terms)
        case None => if previous.Some? then Launch in previous.value && d[Launch] == previous.value[Launch]
                     else d[Launch].Null?)
    && (match input.workflow
        case Some(job) => JobReadsAs(d[Workflow], job, title, input.description)
        case None =>
          if previous.Some? then
            && Workflow in previous.value
            && JobReadsAs(d[Workflow], previous.value[Workflow], title, input.description)
          else d[Workflow].Null?)
  }

  ghost predicate NumbersRead(d: Record, previous: Option<Record>, now: int)
    requires d.Keys == KEYS
  {
    match previous
    case None => d[Revision] == Num(1) && d[CreatedAt] == Num(now) && d[UpdatedAt] == Num(Max(now, 0))
    case Some(p) =>
      && p.Keys == KEYS && p[Revision].Num? && p[UpdatedAt].Num?
      && d[Revision] == Num(p[Revision].n + 1) && d[CreatedAt] == p[CreatedAt]
      && d[UpdatedAt] == Num(Max(now, p[UpdatedAt].n))
  }

  /** Launch terms read back with exactly the fields given; null stays null. */
  predicate TermsReadAs(read: Json, terms: Json) {
    if terms.Null? then read.Null? else terms.Obj? && read.Obj? && read.at == terms.at
  }

  /** A job reads back with the fields given; its review mark only stays while title and description are its own. */
  predicate JobReadsAs(read: Json, job: Json, title: string, description: string) {
    if job.Null? then read.Null?
    else
      && job.Obj? && read.Obj? && read.at.Keys == job.at.Keys + {ReviewedDigest}
      && (forall k :: k in job.at && k != ReviewedDigest ==> read.at[k] == job.at[k])
      && Title in job.at && Description in job.at
      && (if job.at[Title] == Str(title) && job.at[Description] == Str(description)
          then ReviewedDigest in job.at && read.at[ReviewedDigest] == job.at[ReviewedDigest]
          else read.at[ReviewedDigest].Null?)
  }

  lemma JobShape(w: Json, revision: int)
    requires WorkflowOk(w, revision) && !w.Null?
    ensures w.Obj? && Truthy(w) && {Title, Description, ReviewedDigest} <= w.at.Keys
    ensures w.at[Title].Str? && w.at[Description].Str?
  {
    hide RunOk, OutputOk, STATUSES, Trim, Utf16Length;
  }

  /** What the save makes of a job, if the result is fit to be stored. */
  lemma JobIsKept(job: Json, title: string, description: string, revision: int)
    requires WorkflowOk(KeptWorkflow(job, title, description), revision)
    ensures JobReadsAs(KeptWorkflow(job, title, description), job, title, description)
  {
    hide WorkflowOk;
    if !KeptWorkflow(job, title, description).Null? { JobShape(KeptWorkflow(job, title, description), revision); }
    if job.Obj? {
      assert Truthy(job);
      if TextDiffers(job, title, description) {
        ClearedFields(job);
      }
    }
  }

  lemma ClearedFields(job: Json)
    requires job.Obj?
    ensures ClearMark(job).Obj? && ClearMark(job).at == job.at[ReviewedDigest := Null]
    ensures ClearMark(job).at.Keys == job.at.Keys + {ReviewedDigest} && ClearMark(job).at[ReviewedDigest].Null?
    ensures forall k :: k in job.at && k != ReviewedDigest ==> ClearMark(job).at[k] == job.at[k]
  {
  }

  lemma PreviousIsNormal(s: Store, id: Json)
    requires Valid(s) && id in s
    ensures PreviousIn(s, id).Some? && Normal(PreviousIn(s, id).value)
  {
    hide NormalizeStored, Normal;
    assert Sound(s[id]);
    NormalizeGivesNormal(s[id]);
  }

  lemma NoPrevious(s: Store, id: Json)
    requires id !in s
    ensures PreviousIn(s, id).None?
  {
  }

  lemma CandidateReadsBack(previous: Option<Record>, input: SaveInput, id: Json, now: int)
    requires previous.Some? ==> Normal(previous.value)
    requires ValidDraft(Candidate(previous, input, id, now), false)
    ensures var d := Candidate(previous, input, id, now);
      NormalizeStored(d).Some? && NormalizeStored(d).value.Keys == KEYS
      && ReadsAs(NormalizeStored(d).value, id, previous, input, now)
  {
    var d := Candidate(previous, input, id, now);
    CandidateFields(previous, input, id, now);
    NormalizeGivesNormal(d);
    NormalizedLaunch(d);
    NormalIsStored(NormalizeStored(d).value);
    JobOfDraft(d);
    var (job, title) := (OrPrevious(input.workflow, previous, Workflow), Trim(input.title));
    JobIsKept(job, title, input.description, d[Revision].n);
    if previous.Some? { NormalParts(previous.value); NormalNumbers(previous.value); }
    hide ValidDraft, Candidate, NormalizeStored, Normal, KeptWorkflow, ValidTerms, Trim, JobReadsAs, Stored;
    hide LEGACY_KEYS;
  }

  lemma JobOfDraft(d: Record)
    requires ValidDraft(d, false)
    ensures Revision in d && d[Revision].Num?
    ensures WorkflowOk(if Workflow in d then d[Workflow] else Null, d[Revision].n)
  {
    hide ValidWorkflow, LaunchOk;
  }

  lemma NormalNumbers(n: Record)
    requires Normal(n)
    ensures n.Keys == KEYS && n[Revision].Num? && n[CreatedAt].Num? && n[UpdatedAt].Num?
  {
    hide WorkflowOk, LaunchOk;
  }

  lemma NormalizedLaunch(d: Record)
    requires ValidDraft(d, false)
    ensures NormalizeStored(d).Some? && Launch in d && Launch in NormalizeStored(d).value
    ensures d[Launch].Null? || d[Launch].Obj?
    ensures NormalizeStored(d).value[Launch] == d[Launch] <==> d[Launch].Null? || d[Launch].order == TERMS_ORDER
    ensures TermsReadAs(NormalizeStored(d).value[Launch], d[Launch])
  {
    hide CoreFields, WorkflowOk, NormalLaunch, LaunchOk;
    LaunchShape(d[Launch]);
    NormalLaunchIsValid(d[Launch]);
  }

  lemma NormalParts(n: Record)
    requires Normal(n)
    ensures Launch in n && Workflow in n && (n[Launch].Null? || (n[Launch].Obj? && n[Launch].order == TERMS_ORDER))
    ensures n[Workflow].Null? || (n[Workflow].Obj? && Truthy(n[Workflow]))
  {
    hide CoreFields;
  }

  // ---------------------------------------------------------------- one import

  ghost predicate ListedAs(ds: seq<Record>, k: Json, r: Record) {
    exists i :: 0 <= i < |ds| && Id in ds[i] && ds[i][Id] == k && ds[i] == r
  }

  /** The store s with exactly the drafts ds added to it. */
  ghost predicate Union(s: Store, ds: seq<Record>, m: Store) {
    && (forall k :: k in s ==> k in m && m[k] == s[k])
    && (forall k :: k in m && k !in s ==> ListedAs(ds, k, m[k]))
    && |m| == |s| + |ds|
  }

  ghost predicate NewIds(s: Store, ds: seq<Record>)
    requires AllHaveIds(ds)
  {
    && (forall i :: 0 <= i < |ds| ==> ds[i][Id] !in s)
    && DistinctIds(ds)
  }

  lemma {:induction false} AddedDrafts(s: Store, ds: seq<Record>)
    requires AllHaveIds(ds) && NewIds(s, ds)
    ensures Union(s, ds, AddAll(s, ds))
    decreases |ds|
  {
    if ds != [] {
      var n := |ds| - 1;
      AddedDrafts(s, ds[..n]);
      AddOne(s, ds, AddAll(s, ds[..n]));
    }
  }

  lemma AddOne(s: Store, ds: seq<Record>, m: Store)
    requires AllHaveIds(ds) && NewIds(s, ds) && ds != [] && Union(s, ds[..|ds| - 1], m)
    ensures Union(s, ds, Put(m, ds[|ds| - 1]))
  {
    var n := |ds| - 1;
    var d := ds[n];
    var m' := Put(m, d);
    forall k | k in m && k !in s ensures k != d[Id] && ListedAs(ds, k, m[k]) {
      var i :| 0 <= i < n && Id in ds[..n][i] && ds[..n][i][Id] == k && ds[..n][i] == m[k];
      assert ds[i] == m[k];
    }
    assert d[Id] !in m;
    forall k | k in m' && k !in s ensures ListedAs(ds, k, m'[k]) {
      if k == d[Id] { assert ds[n][Id] == k; }
    }
  }

  lemma {:induction false} AdditionsMeaning(s: Store, incoming: seq<Record>, d: Record)
    requires AllHaveIds(incoming)
    ensures d in Additions(s, incoming) <==> d in incoming && Id in d && d[Id] !in s
    decreases |incoming|
  {
    if incoming != [] {
      var n := |incoming| - 1;
      AdditionsMeaning(s, incoming[..n], d);
      assert incoming == incoming[..n] + [incoming[n]];
    }
  }

  ghost predicate DistinctIds(ds: seq<Record>)
    requires AllHaveIds(ds)
  {
    forall i, j :: 0 <= i < j < |ds| ==> ds[i][Id] != ds[j][Id]
  }

  lemma {:induction false} AdditionsAreDistinct(s: Store, incoming: seq<Record>)
    requires AllHaveIds(incoming) && DistinctIds(incoming)
    ensures DistinctIds(Additions(s, incoming))
    decreases |incoming|
  {
    if incoming != [] {
      var n := |incoming| - 1;
      var init := incoming[..n];
      AdditionsAreDistinct(s, init);
      var a := Additions(s, init);
      forall i | 0 <= i < |a| ensures a[i][Id] != incoming[n][Id] {
        AdditionsMeaning(s, init, a[i]);
        var k :| 0 <= k < n && init[k] == a[i];
        assert incoming[k] == a[i];
      }
    }
  }

  lemma ImportCases(parse: string -> Option<Json>, s: Store, text: string, authorized: bool)
    ensures var (s', result) := ImportTx(parse, s, text, authorized);
      && (result.NotImported? ==> s' == s)
      && (result.Imported? ==>
            var parsed := ParseImport(parse, text);
            && parsed.Incoming? && AllHaveIds(parsed.drafts)
            && s' == AddAll(s, Additions(s, parsed.drafts)) && result.count == |Additions(s, parsed.drafts)|
            && |s| + result.count <= MAX_DRAFTS)
  {
    hide ParseImport, NormalizeStored, Normal, NeedsHost, HasMark, SomeConflict, AllReadable, Additions, AddAll;
    if ParseImport(parse, text).Incoming? { IncomingIsNormal(parse, text); }
  }

  ghost predicate FreshDrafts(ds: seq<Record>) {
    forall i :: 0 <= i < |ds| ==> Normal(ds[i]) && !HasMark(ds[i])
  }

  lemma ImportOutcome(parse: string -> Option<Json>, s: Store, text: string, authorized: bool) returns (ds: seq<Record>)
    ensures var (s', result) := ImportTx(parse, s, text, authorized);
      && (result.NotImported? ==> s' == s)
      && (result.Imported? ==>
            Union(s, ds, s') && |ds| == result.count && FreshDrafts(ds) && |s| + |ds| <= MAX_DRAFTS)
  {
    hide ImportTx, ParseImport, Normal, HasMark, Union, Additions, AddAll;
    ImportCases(parse, s, text, authorized);
    ds := [];
    if ImportTx(parse, s, text, authorized).1.Imported? {
      IncomingIsNormal(parse, text);
      var incoming := ParseImport(parse, text).drafts;
      AdditionsAreDistinct(s, incoming);
      ds := Additions(s, incoming);
      forall i | 0 <= i < |ds| ensures ds[i] in incoming && ds[i][Id] !in s {
        AdditionsMeaning(s, incoming, ds[i]);
      }
      AddedDrafts(s, ds);
    }
  }

  /** What an import does: refused, nothing changes; accepted, old drafts stay and the new ones carry no review mark. */
  lemma ImportEffect(parse: string -> Option<Json>, s: Store, text: string, authorized: bool)
    requires Valid(s)
    ensures var (s', result) := ImportTx(parse, s, text, authorized);
      && Valid(s')
      && (result.NotImported? ==> s' == s)
      && (forall k :: k in s ==> k in s' && s'[k] == s[k])
      && (forall k :: k in s' && k !in s ==> Normal(s'[k]) && !HasMark(s'[k]))
      && (result.Imported? ==> |s'| == |s| + result.count)
  {
    hide ImportTx, Normal, HasMark, Sound;
    var ds := ImportOutcome(parse, s, text, authorized);
    var (s', result) := ImportTx(parse, s, text, authorized);
    if result.Imported? {
      forall k | k in s' && k !in s
        ensures Normal(s'[k]) && !HasMark(s'[k]) && Sound(s'[k]) && Id in s'[k] && s'[k][Id] == k
      {
        assert ListedAs(ds, k, s'[k]) && FreshDrafts(ds);
        UnmarkedIsSound(s'[k]);
      }
    }
  }

  lemma UnmarkedIsSound(n: Record)
    requires Normal(n) && !HasMark(n)
    ensures Sound(n)
  {
    hide CoreFields, LaunchOk, WorkflowOk;
  }

  // ---------------------------------------------------------------- runs

  /** One transaction from any tab, with the clock reading and the random id it would use. */
  datatype Action =
    | Save(input: SaveInput, expected: Option<int>, allowNewWorkflow: bool, freshId: string, now: int)
    | Import(text: string, authorized: bool)

  ghost function After(parse: string -> Option<Json>, s: Store, a: Action): Store {
    match a
    case Save(input, expected, allowNew, freshId, now) => SaveTx(s, input, expected, allowNew, freshId, now).0
    case Import(text, authorized) => ImportTx(parse, s, text, authorized).0
  }

  ghost predicate Succeeds(parse: string -> Option<Json>, s: Store, a: Action) {
    match a
    case Save(input, expected, allowNew, freshId, now) => SaveTx(s, input, expected, allowNew, freshId, now).1.Saved?
    case Import(text, authorized) => ImportTx(parse, s, text, authorized).1.Imported?
  }

  ghost predicate SavesId(a: Action, id: Json) { a.Save? && DraftKey(a.input, a.freshId) == id }

  ghost function Run(parse: string -> Option<Json>, s: Store, actions: seq<Action>): Store
    decreases |actions|
  {
    hide After;
    if actions == [] then s else Run(parse, After(parse, s, actions[0]), actions[1..])
  }

  ghost function SavesOf(parse: string -> Option<Json>, s: Store, actions: seq<Action>, id: Json): nat
    decreases |actions|
  {
    hide After, Succeeds, SavesId;
    if actions == [] then 0
    else
      (if SavesId(actions[0], id) && Succeeds(parse, s, actions[0]) then 1 else 0)
      + SavesOf(parse, After(parse, s, actions[0]), actions[1..], id)
  }

  /** One transaction: the store stays valid, a failure changes nothing, and only a successful save moves a revision. */
  lemma StepKeepsHistory(parse: string -> Option<Json>, s: Store, a: Action, id: Json)
    requires Valid(s)
    ensures var s' := After(parse, s, a);
      && Valid(s')
      && (!Succeeds(parse, s, a) ==> s' == s)
      && (id in s ==> Carried(s, s', id))
      && (id in s || SavesId(a, id) ==>
            RevisionIn(s', id) == RevisionIn(s, id) + if SavesId(a, id) && Succeeds(parse, s, a) then 1 else 0)
      && (SavesId(a, id) && Succeeds(parse, s, a) ==>
            id in s' && a.expected == if id in s then Some(RevisionIn(s, id)) else None)
  {
    hide SaveTx, ImportTx;
    if id in s { assert Sound(s[id]); }
    match a {
      case Save(input, expected, allowNew, freshId, now) =>
        SaveEffect(s, input, expected, allowNew, freshId, now);
      case Import(text, authorized) =>
        ImportEffect(parse, s, text, authorized);
    }
  }

  /** Every run keeps the store valid: all drafts readable, marks justified, at most one hundred of them. */
  lemma {:induction false} RunKeepsValid(parse: string -> Option<Json>, s: Store, actions: seq<Action>)
    requires Valid(s)
    ensures Valid(Run(parse, s, actions))
    decreases |actions|
  {
    if actions != [] {
      StepKeepsHistory(parse, s, actions[0], Null);
      RunKeepsValid(parse, After(parse, s, actions[0]), actions[1..]);
    }
  }

  /**
   Over every run a draft is never lost, keeps its creation time, is never updated backwards, and counts its saves.
   */
  lemma {:induction false} RunKeepsHistory(parse: string -> Option<Json>, s: Store, actions: seq<Action>, id: Json)
    requires Valid(s) && id in s
    ensures Valid(Run(parse, s, actions))
    ensures Carried(s, Run(parse, s, actions), id)
    ensures RevisionIn(Run(parse, s, actions), id) == RevisionIn(s, id) + SavesOf(parse, s, actions, id)
    decreases |actions|
  {
    hide After, Succeeds, SavesId;
    if actions != [] {
      StepKeepsHistory(parse, s, actions[0], id);
      RunKeepsHistory(parse, After(parse, s, actions[0]), actions[1..], id);
    } else {
      assert Sound(s[id]);
    }
  }

  lemma {:induction false} RunComposes(parse: string -> Option<Json>, s: Store, first: seq<Action>, second: seq<Action>)
    ensures Run(parse, s, first + second) == Run(parse, Run(parse, s, first), second)
    decreases |first|
  {
    if first == [] {
      assert first + second == second;
    } else {
      assert (first + second)[1..] == first[1..] + second;
      RunComposes(parse, After(parse, s, first[0]), first[1..], second);
    }
  }

  lemma SplitAt(actions: seq<Action>, i: nat, j: nat)
    requires i < j <= |actions|
    ensures actions[..j] == actions[..i] + ([actions[i]] + actions[i + 1..j])
  {
  }

  /**
   Of all saves of one draft in a run that expect the same revision, at most one succeeds: a later one expects more.
   */
  lemma SameExpectationSucceedsOnce(parse: string -> Option<Json>, s: Store, actions: seq<Action>, i: nat, j: nat,
      id: Json)
    requires Valid(s) && i < j < |actions|
    ensures SucceedsAt(parse, s, actions, i, id) && SucceedsAt(parse, s, actions, j, id) ==>
      && actions[j].expected.Some?
      && (actions[i].expected.Some? ==> actions[i].expected.value < actions[j].expected.value)
  {
    if SucceedsAt(parse, s, actions, i, id) && SucceedsAt(parse, s, actions, j, id) {
      LaterExpectsMore(parse, s, actions, i, j, id);
    }
  }

  /** The action at position i of a run is a successful save of the draft. */
  ghost predicate SucceedsAt(parse: string -> Option<Json>, s: Store, actions: seq<Action>, i: nat, id: Json)
    requires i < |actions|
  {
    SavesId(actions[i], id) && Succeeds(parse, Run(parse, s, actions[..i]), actions[i])
  }

  lemma LaterExpectsMore(parse: string -> Option<Json>, s: Store, actions: seq<Action>, i: nat, j: nat, id: Json)
    requires Valid(s) && i < j < |actions|
    requires SucceedsAt(parse, s, actions, i, id) && SucceedsAt(parse, s, actions, j, id)
    ensures actions[j].expected.Some?
    ensures actions[i].expected.Some? ==> actions[i].expected.value < actions[j].expected.value
  {
    hide After, Succeeds, SavesId, Carried;
    SplitAt(actions, i, j);
    var si := Run(parse, s, actions[..i]);
    RunKeepsValid(parse, s, actions[..i]);
    StepKeepsHistory(parse, si, actions[i], id);
    var next := After(parse, si, actions[i]);
    var middle := actions[i + 1..j];
    RunKeepsHistory(parse, next, middle, id);
    RunComposes(parse, s, actions[..i], [actions[i]] + middle);
    assert ([actions[i]] + middle)[1..] == middle;
    StepKeepsHistory(parse, Run(parse, next, middle), actions[j], id);
  }
}
