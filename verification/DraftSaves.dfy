/** Exactly when a save succeeds: the expected revision, host consent, room, and the limits of every field. */
module DraftSaves {
  import opened DraftRecords
  import opened DraftRuns
  import opened DraftTransactions
  import opened Integers
  import opened LaunchTerms
  import opened Options
  import opened Texts

  // ---------------------------------------------------------------- the limits, field by field

  /** A whole number from low on that a double holds exactly. */
  predicate CountAt(at: Record, k: Name, low: int) {
    k in at && at[k].Num? && low <= at[k].n <= 9007199254740991
  }

  predicate TextAt(at: Record, k: Name, limit: nat) { k in at && at[k].Str? && Utf16Length(at[k].s) <= limit }

  predicate HashAt(at: Record, k: Name) { k in at && HashText(at[k]) }

  predicate NullAt(at: Record, k: Name) { k in at && at[k].Null? }

  /** A job may be queued without a run; every run is named by the hash of what it runs on. */
  predicate RunFits(at: Record) {
    && RunId in at
    && (if at[RunId].Null? then Status in at && at[Status] == Str("queued")
        else at[RunId].Str? && |at[RunId].s| == 72 && at[RunId].s[..8] == "listing-" && HashText(Str(at[RunId].s[8..])))
  }

  /** Exactly a completed job has text and the hash of it. */
  predicate OutputFits(at: Record) {
    && Status in at
    && (if at[Status] == Str("completed") then
          && OutputText in at && at[OutputText].Str? && HasVisible(at[OutputText].s)
          && Utf8Length(at[OutputText].s) <= 16000 && HashAt(at, OutputDigest)
        else NullAt(at, OutputText) && NullAt(at, OutputDigest))
  }

  predicate StatusFits(status: string) {
    || status == "queued" || status == "planning" || status == "running" || status == "completed" || status == "blocked"
    || status == "canceled" || status == "pending" || status == "idle" || status == "reconciling"
    || status == "synthesizing"
  }

  lemma StatusMeaning(status: string)
    ensures status in STATUSES <==> StatusFits(status)
  {
  }

  /** The fields of a job apart from its review mark. */
  predicate JobFields(at: Record) {
    && at.Keys == {Title, Description, InputRevision, RunId, Status, OutputText, OutputDigest, ReviewedDigest}
    && TextAt(at, Title, 120) && HasVisible(at[Title].s) && TextAt(at, Description, 10000)
    && CountAt(at, InputRevision, 1) && RunFits(at)
    && at[Status].Str? && StatusFits(at[Status].s)
    && OutputFits(at)
  }

  /** A mark names the output of the completed job it stands on. */
  predicate MarkFits(at: Record) {
    NullAt(at, ReviewedDigest)
    || (Status in at && at[Status] == Str("completed") && OutputDigest in at && ReviewedDigest in at
        && at[ReviewedDigest] == at[OutputDigest])
  }

  /** A job fits a draft if its fields do, were it without a mark where the texts are not its own. */
  predicate JobFits(job: Json, title: string, description: string, revision: int) {
    job.Null?
    || (job.Obj?
        && (var own := Title in job.at && job.at[Title] == Str(title)
                       && Description in job.at && job.at[Description] == Str(description);
            var at := if own then job.at else job.at[ReviewedDigest := Null];
            JobFields(at) && MarkFits(at) && at[InputRevision].n <= revision))
  }

  predicate TextsFit(input: SaveInput) {
    HasVisible(input.title) && Utf16Length(Trim(input.title)) <= 120
    && Utf16Length(input.description) <= 10000 && Utf16Length(input.price) <= 120
  }

  predicate IdFits(id: string) { |id| == 36 && forall i :: 0 <= i < 36 ==> IsHex(id[i]) || id[i] == '-' }

  // ---------------------------------------------------------------- the limits are those of the records

  lemma JobFieldsMeaning(w: Json)
    requires w.Obj?
    ensures WorkflowCore(w) <==> JobFields(w.at)
  {
    if JobKeys(w.at) {
      KeysAreJobKeys(w.at);
      RunMeaning(w);
      OutputMeaning(w);
      if w.at[Title].Str? { TrimLeavesVisible(w.at[Title].s); }
      if w.at[Status].Str? { StatusMeaning(w.at[Status].s); }
      hide RunOk, OutputOk, RunFits, OutputFits, Trim, HasVisible, WORKFLOW_KEYS, STATUSES, StatusFits;
    } else {
      KeysAreJobKeys(w.at);
      hide WORKFLOW_KEYS;
    }
  }

  predicate JobKeys(at: Record) {
    at.Keys == {Title, Description, InputRevision, RunId, Status, OutputText, OutputDigest, ReviewedDigest}
  }

  lemma KeysAreJobKeys(at: Record)
    ensures JobKeys(at) <==> at.Keys == WORKFLOW_KEYS
    ensures JobKeys(at) ==>
      && Title in at && Description in at && InputRevision in at && RunId in at && Status in at && OutputText in at
      && OutputDigest in at && ReviewedDigest in at
  {
  }

  lemma RunMeaning(w: Json)
    requires w.Obj? && w.at.Keys == WORKFLOW_KEYS
    ensures RunOk(w) <==> RunFits(w.at)
  {
    assert RUN_PREFIX == "listing-" && |RUN_PREFIX| == 8;
    if w.at[RunId].Str? && |w.at[RunId].s| >= 8 {
      var s := w.at[RunId].s;
      assert RUN_PREFIX <= s <==> s[..8] == RUN_PREFIX;
    }
  }

  lemma OutputMeaning(w: Json)
    requires w.Obj? && w.at.Keys == WORKFLOW_KEYS
    ensures OutputOk(w) <==> OutputFits(w.at)
  {
    if w.at[OutputText].Str? { TrimLeavesVisible(w.at[OutputText].s); }
    hide Trim, HasVisible;
  }

  lemma OwnTexts(job: Json, title: string, description: string)
    requires job.Obj?
    ensures TextDiffers(job, title, description) <==>
      !(Title in job.at && job.at[Title] == Str(title)
        && Description in job.at && job.at[Description] == Str(description))
  {
  }

  lemma MarkMeaning(w: Json)
    requires w.Obj?
    ensures ValidWorkflow(w) <==> JobFields(w.at) && MarkFits(w.at)
  {
    hide WorkflowCore, JobFields;
    JobFieldsMeaning(w);
    KeysOfCore(w);
  }

  lemma KeysOfCore(w: Json)
    requires w.Obj?
    ensures WorkflowCore(w) ==>
      w.at.Keys == WORKFLOW_KEYS && Status in w.at && OutputDigest in w.at && ReviewedDigest in w.at
    ensures JobFields(w.at) ==> InputRevision in w.at && w.at[InputRevision].Num?
  {
    hide RunOk, OutputOk, RunFits, OutputFits, STATUSES, StatusFits, Trim, HasVisible;
  }

  /** What a save makes of a job may be stored exactly when the job fits the saved texts. */
  lemma JobFitsMeaning(job: Json, title: string, description: string, revision: int)
    ensures WorkflowOk(KeptWorkflow(job, title, description), revision) <==> JobFits(job, title, description, revision)
  {
    hide JobFields, MarkFits, ValidWorkflow;
    if job.Obj? {
      assert Truthy(job);
      OwnTexts(job, title, description);
      ClearedFields(job);
      MarkMeaning(job);
      MarkMeaning(ClearMark(job));
      hide TextDiffers, ClearMark;
    } else {
      assert ClearMark(job) == job;
      OnlyObjectsAreJobs(job);
    }
  }

  lemma OnlyObjectsAreJobs(job: Json)
    ensures ValidWorkflow(job) ==> job.Obj?
  {
  }

  // ---------------------------------------------------------------- what the candidate needs

  predicate CandidateFits(previous: Option<Record>, input: SaveInput, id: Json, now: int)
    requires previous.Some? ==> Normal(previous.value)
  {
    && id.Str? && IdFits(id.s) && TextsFit(input)
    && (input.launch.Some? ==> LaunchOk(input.launch.value))
    && (input.workflow.Some? ==>
          JobFits(input.workflow.value, Trim(input.title), input.description, NumberOr(previous, Revision, 0) + 1))
    && NumberOr(previous, Revision, 0) + 1 <= 9007199254740991
    && (if previous.Some? then now <= 9007199254740991 else 1 <= now <= 9007199254740991)
  }

  lemma CandidateKeys(previous: Option<Record>, input: SaveInput, id: Json, now: int)
    ensures var d := Candidate(previous, input, id, now);
      (d.Keys == V2_KEYS || d.Keys == KEYS) && (Workflow in d ==> !d[Workflow].Null?)
  {
    hide KeptWorkflow, OrPrevious, Trim, NumberOr, Max;
  }

  lemma CoreOfCandidate(previous: Option<Record>, input: SaveInput, id: Json, now: int)
    requires previous.Some? ==> Normal(previous.value)
    ensures CoreFields(Candidate(previous, input, id, now)) <==>
      && id.Str? && IdFits(id.s) && TextsFit(input)
      && NumberOr(previous, Revision, 0) + 1 <= 9007199254740991
      && (if previous.Some? then now <= 9007199254740991 else 1 <= now <= 9007199254740991)
  {
    CandidateFields(previous, input, id, now);
    TrimTwice(input.title);
    TrimLeavesVisible(input.title);
    if previous.Some? { NumbersOfNormal(previous.value, now); }
    hide Candidate, KeptWorkflow, OrPrevious, Trim, HasVisible, Normal, Utf16Length, IsHex;
  }

  lemma NumbersOfNormal(n: Record, now: int)
    requires Normal(n)
    ensures NumberOr(Some(n), Revision, 0) > 0
    ensures 0 < NumberOr(Some(n), CreatedAt, now) <= NumberOr(Some(n), UpdatedAt, 0) <= 9007199254740991
  {
    hide WorkflowOk, LaunchOk;
  }

  lemma KeptPartsFit(n: Record, title: string, description: string)
    requires Normal(n)
    ensures Launch in n && LaunchOk(n[Launch]) && Workflow in n && n[Revision].Num?
    ensures WorkflowOk(KeptWorkflow(n[Workflow], title, description), n[Revision].n + 1)
  {
    hide CoreFields, LaunchOk, ValidWorkflow, TextDiffers;
    assert Launch in KEYS && Workflow in KEYS;
    CoreHolds(n, false);
    if n[Workflow].Obj? {
      WorkflowParts(n[Workflow], n[Revision].n);
      WorkflowStaysOk(n[Workflow], n[Revision].n);
    } else {
      OnlyObjectsAreJobs(n[Workflow]);
    }
  }

  lemma PartsOfDraft(d: Record)
    requires d.Keys == V2_KEYS || d.Keys == KEYS
    ensures Launch in d && Revision in d
    ensures ValidDraft(d, false) <==>
      && CoreFields(d) && LaunchOk(d[Launch]) && d[Revision].Num?
      && (Workflow in d ==> WorkflowOk(d[Workflow], d[Revision].n))
  {
    hide LaunchOk, WorkflowOk;
  }

  /** The candidate is a valid draft exactly when everything given fits. */
  lemma ValidExactlyIfFits(previous: Option<Record>, input: SaveInput, id: Json, now: int)
    requires previous.Some? ==> Normal(previous.value)
    ensures ValidDraft(Candidate(previous, input, id, now), false) <==> CandidateFits(previous, input, id, now)
  {
    var (d, title) := (Candidate(previous, input, id, now), Trim(input.title));
    CandidateKeys(previous, input, id, now);
    CandidateFields(previous, input, id, now);
    CoreOfCandidate(previous, input, id, now);
    PartsOfDraft(d);
    NullIsOk(d[Revision].n);
    if previous.Some? { KeptPartsFit(previous.value, title, input.description); RevisionOfNormal(previous.value); }
    if input.workflow.Some? { JobFitsMeaning(input.workflow.value, title, input.description, d[Revision].n); }
    hide Candidate, CoreFields, LaunchOk, WorkflowOk, Normal, TextsFit, IdFits, JobFits, ValidDraft, Trim, NumberOr;
    hide Max;
    NothingKept(title, input.description);
    hide KeptWorkflow;
  }

  lemma NothingKept(title: string, description: string)
    ensures KeptWorkflow(Null, title, description) == Null
  {
  }

  lemma RevisionOfNormal(n: Record)
    requires Normal(n)
    ensures Revision in n && n[Revision].Num? && NumberOr(Some(n), Revision, 0) == n[Revision].n
  {
    CoreHolds(n, false);
  }

  // ---------------------------------------------------------------- the save

  /** The caller saw the latest revision, or knows that there is none. */
  ghost predicate SawLatest(s: Store, id: Json, expected: Option<int>)
    requires Valid(s)
  {
    expected == if id in s then Some(RevisionIn(s, id)) else None
  }

  predicate HasJob(s: Store, id: Json) { id in s && Workflow in s[id] && !s[id][Workflow].Null? }

  /** A job for a draft without one needs the execution host. */
  predicate HostAgrees(s: Store, input: SaveInput, id: Json, allowNew: bool) {
    input.workflow.Some? && Truthy(input.workflow.value) ==> HasJob(s, id) || allowNew
  }

  predicate HasRoom(s: Store, id: Json) { id in s || |s| < 100 }

  /** Everything given is within its limits; what is not given is kept and needs no test. */
  ghost predicate InputFits(s: Store, input: SaveInput, id: Json, now: int)
    requires Valid(s)
  {
    && id.Str? && IdFits(id.s) && TextsFit(input)
    && (input.launch.Some? ==> input.launch.value.Null? || ValidTerms(input.launch.value))
    && (input.workflow.Some? ==>
          JobFits(input.workflow.value, Trim(input.title), input.description, RevisionIn(s, id) + 1))
    && RevisionIn(s, id) + 1 <= 9007199254740991
    && (if id in s then now <= 9007199254740991 else 1 <= now <= 9007199254740991)
  }

  /** A save succeeds exactly if its revision is the latest, the host agrees, there is room and the input fits. */
  lemma SaveSucceeds(s: Store, input: SaveInput, expected: Option<int>, allowNew: bool, freshId: string, now: int)
    requires Valid(s)
    ensures var id := Str(if input.id != "" then input.id else freshId);
      SaveTx(s, input, expected, allowNew, freshId, now).1.Saved? <==>
        && SawLatest(s, id, expected) && HostAgrees(s, input, id, allowNew) && HasRoom(s, id)
        && InputFits(s, input, id, now)
  {
    var id := DraftKey(input, freshId);
    PreviousOf(s, id, now);
    ValidExactlyIfFits(PreviousIn(s, id), input, id, now);
    hide Valid, Candidate, ValidDraft, NormalizeStored, Truthy, JobFits, TextsFit, IdFits, ValidTerms, Trim, RevisionIn,
      HadWorkflow, HasJob, RevisionOf, NumberOr, Normal, PreviousIn;
    SaveCases(s, input, expected, allowNew, freshId, now);
    hide SaveTx;
  }

  /** The reason for a refusal is the first test that fails. */
  lemma SaveRefused(s: Store, input: SaveInput, expected: Option<int>, allowNew: bool, freshId: string, now: int)
    requires Valid(s)
    ensures var (id, result) :=
        (Str(if input.id != "" then input.id else freshId), SaveTx(s, input, expected, allowNew, freshId, now).1);
      && (result == NotSaved(RevisionConflict) <==> !SawLatest(s, id, expected))
      && (result == NotSaved(HostRequired) <==> SawLatest(s, id, expected) && !HostAgrees(s, input, id, allowNew))
      && (result == NotSaved(StoreFull) <==>
            SawLatest(s, id, expected) && HostAgrees(s, input, id, allowNew) && !HasRoom(s, id))
      && (result == NotSaved(InvalidDraft) <==>
            && SawLatest(s, id, expected) && HostAgrees(s, input, id, allowNew) && HasRoom(s, id)
            && !InputFits(s, input, id, now))
  {
    var id := DraftKey(input, freshId);
    PreviousOf(s, id, now);
    ValidExactlyIfFits(PreviousIn(s, id), input, id, now);
    hide Valid, Candidate, ValidDraft, NormalizeStored, Truthy, JobFits, TextsFit, IdFits, ValidTerms, Trim, RevisionIn,
      HadWorkflow, HasJob, RevisionOf, NumberOr, Normal, PreviousIn;
    SaveCases(s, input, expected, allowNew, freshId, now);
    hide SaveTx;
  }

  /** The save transaction, one test after the other. */
  lemma SaveCases(s: Store, input: SaveInput, expected: Option<int>, allowNew: bool, freshId: string, now: int)
    ensures var (id, result) := (DraftKey(input, freshId), SaveTx(s, input, expected, allowNew, freshId, now).1);
      var previous := PreviousIn(s, id);
      id in s ==> previous.Some? ==>
        if RevisionOf(previous) != expected then result == NotSaved(RevisionConflict)
        else if input.workflow.Some? && Truthy(input.workflow.value) && !HadWorkflow(previous) && !allowNew then
          result == NotSaved(HostRequired)
        else if !ValidDraft(Candidate(previous, input, id, now), false) then result == NotSaved(InvalidDraft)
        else result.Saved?
    ensures var (id, result) := (DraftKey(input, freshId), SaveTx(s, input, expected, allowNew, freshId, now).1);
      id !in s ==>
        if RevisionOf(None) != expected then result == NotSaved(RevisionConflict)
        else if input.workflow.Some? && Truthy(input.workflow.value) && !HadWorkflow(None) && !allowNew then
          result == NotSaved(HostRequired)
        else if |s| >= 100 then result == NotSaved(StoreFull)
        else if !ValidDraft(Candidate(None, input, id, now), false) then result == NotSaved(InvalidDraft)
        else result.Saved?
  {
    hide Candidate, ValidDraft, NormalizeStored, Truthy, HadWorkflow, RevisionOf;
  }

  /** What a save finds under an id. */
  lemma PreviousOf(s: Store, id: Json, now: int)
    requires Valid(s)
    ensures var p := PreviousIn(s, id);
      && (p.Some? <==> id in s) && (p.None? ==> p == None) && (p.Some? ==> Normal(p.value))
      && RevisionOf(p) == (if id in s then Some(RevisionIn(s, id)) else None)
      && NumberOr(p, Revision, 0) == RevisionIn(s, id)
      && (HadWorkflow(p) <==> HasJob(s, id))
  {
    hide NormalizeStored, ValidDraft, Normal, MarkJustified, Truthy, RevisionOf, NumberOr;
    PreviousNumbers(s, id, now);
    if id in s {
      PreviousIsNormal(s, id);
      assert Sound(s[id]);
      NormalizeGivesNormal(s[id]);
      NormalParts(PreviousIn(s, id).value);
      NullIsFalse();
    } else {
      NoPrevious(s, id);
    }
  }

  lemma NullIsFalse()
    ensures !Truthy(Null)
  {
  }
}
