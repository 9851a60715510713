/** Which findings a verdict reports, code by code, and what a verified verdict says. */
module EvidenceReports {
  import opened EvidenceAcceptance
  import opened EvidenceContracts
  import opened EvidenceVerdicts
  import opened Options
  import opened VerdictValidation

  ghost predicate Reports(fs: seq<Finding>, code: FindingCode) { exists f :: f in fs && f.code == code }

  /** The trust policy is known: it comes from the baseline document and agrees with the anchor given from outside. */
  predicate Tied(ctx: Context) { ctx.aggregateCheck.Some? && ctx.anchorGiven && ctx.resolvedPolicyDigest.Some? }

  predicate SourceAvailable(ctx: Context) { Tied(ctx) && ctx.gitResolves && ctx.sourceAtStart.Some? }

  /** The surfaces are looked at. */
  predicate Looked(ctx: Context) { SourceAvailable(ctx) && ctx.rootAttested }

  /** One surface has the role and no other. */
  ghost predicate OneHas(surfaces: seq<Surface>, role: Role) {
    exists i :: 0 <= i < |surfaces| && surfaces[i].role == role && OnlyAt(surfaces, role, i)
  }

  predicate OnlyAt(surfaces: seq<Surface>, role: Role, i: nat) {
    forall j :: 0 <= j < |surfaces| && j != i ==> surfaces[j].role != role
  }

  // ---------------------------------------------------------------- findings of a list

  lemma ReportsEither(a: seq<Finding>, b: seq<Finding>, code: FindingCode)
    ensures Reports(a + b, code) <==> Reports(a, code) || Reports(b, code)
  {
    if Reports(a, code) { var f :| f in a && f.code == code; assert f in a + b; }
    if Reports(b, code) { var f :| f in b && f.code == code; assert f in a + b; }
  }

  lemma ReportsUnique(ctx: Context, fs: seq<Finding>, code: FindingCode)
    ensures Reports(UniqueSortedFindings(ctx, fs), code) <==> Reports(fs, code)
  {
    hide UniqueSortedFindings;
    forall f ensures f in UniqueSortedFindings(ctx, fs) <==> f in fs { SameFindings(ctx, fs, f); }
  }

  // ---------------------------------------------------------------- the parts of the gathered findings

  lemma BoundsReports(ctx: Context, r: Option<Request>, code: FindingCode)
    ensures Reports(BoundsFindings(ctx, r), code) <==> !BoundsResolved(ctx, r) && code == TaskBoundsUnresolved
  {
    var fs := BoundsFindings(ctx, r);
    if fs != [] { assert fs[0] in fs; }
    hide BoundsResolved, AllVisible;
  }

  lemma SourceReports(canon: Canon, ctx: Context, code: FindingCode)
    ensures Reports(SourceFindings(canon, ctx), code) <==> !SourceAvailable(ctx) && code == SourceFingerprintUnavailable
  {
    var fs := SourceFindings(canon, ctx);
    if fs != [] { assert fs[0] in fs; }
    hide AllVisible;
  }

  lemma TrustReports(ctx: Context, code: FindingCode)
    ensures Reports(TrustFindings(ctx), code) <==>
      || (!ctx.anchorGiven && code == DispatchTrustAnchorUnavailable)
      || (ctx.anchorGiven && !Tied(ctx) && code == DispatchTrustAnchorMismatch)
      || (Tied(ctx) && !ctx.rootAttested && code == EvidenceSinkUntrusted)
  {
    hide AllVisible, Visible, EndsVisibly;
    var fs := TrustFindings(ctx);
    assert |fs| == (if !ctx.anchorGiven then 1 else 0) + (if ctx.anchorGiven && !Tied(ctx) then 1 else 0)
      + (if Tied(ctx) && !ctx.rootAttested then 1 else 0);
    assert forall f :: f in fs ==> f == fs[0];
    if fs != [] { assert fs[0] in fs; }
  }

  /** Which codes the checks before any surface report. */
  predicate StartSays(ctx: Context, r: Option<Request>, code: FindingCode) {
    match code
    case TaskBoundsUnresolved => !BoundsResolved(ctx, r)
    case SourceFingerprintUnavailable => !SourceAvailable(ctx)
    case DispatchTrustAnchorUnavailable => !ctx.anchorGiven
    case DispatchTrustAnchorMismatch => ctx.anchorGiven && !Tied(ctx)
    case EvidenceSinkUntrusted => Tied(ctx) && !ctx.rootAttested
    case _ => false
  }

  lemma StartReports(canon: Canon, ctx: Context, r: Option<Request>, code: FindingCode)
    ensures Reports(StartFindings(canon, ctx, r), code) <==> StartSays(ctx, r, code)
  {
    hide Reports, BoundsFindings, SourceFindings, TrustFindings, BoundsResolved, Tied, SourceAvailable;
    ReportsEither(BoundsFindings(ctx, r) + SourceFindings(canon, ctx), TrustFindings(ctx), code);
    ReportsEither(BoundsFindings(ctx, r), SourceFindings(canon, ctx), code);
    BoundsReports(ctx, r, code);
    SourceReports(canon, ctx, code);
    TrustReports(ctx, code);
  }

  /** The codes a surface can be reported with. */
  predicate AboutASurface(code: FindingCode) {
    code in {EvidencePathForbidden, EvidenceDigestMismatch, NamedCheckMismatch, EvidenceUnreadable,
      SourceFingerprintMismatch, SourceChangedDuringCheck, DispatchTrustAnchorMismatch, DispatchReceiptTaskMismatch,
      DispatchReceiptSourceMismatch, PerformerIdentityMismatch, DispatchReceiptUntrusted, CheckNotRun, CheckFailed}
  }

  lemma {:induction false} LoadReports(s: Setting, surfaces: seq<Surface>, code: FindingCode)
    requires !AboutASurface(code)
    ensures !Reports(LoadFindings(s, surfaces), code)
  {
    if surfaces != [] {
      var (init, last) := (surfaces[..|surfaces| - 1], surfaces[|surfaces| - 1]);
      LoadReports(s, init, code);
      ReportsEither(LoadFindings(s, init), LoadIn(s, last).findings, code);
      SurfaceReports(s, last, code);
      hide LoadIn, Reports, AboutASurface;
    }
  }

  lemma CauseIsAboutASurface(s: Setting, d: Surface, code: FindingCode)
    requires Cause(s, d, code)
    ensures AboutASurface(code)
  {
  }

  lemma SurfaceReports(s: Setting, d: Surface, code: FindingCode)
    requires !AboutASurface(code)
    ensures !Reports(LoadIn(s, d).findings, code)
  {
    hide LoadIn, AboutASurface, Cause;
    FindingHasCause(s, d);
    var fs := LoadIn(s, d).findings;
    if fs != [] {
      CauseIsAboutASurface(s, d, fs[0].code);
      assert forall f :: f in fs ==> f == fs[0];
    }
  }

  lemma {:induction false} OpenReports(entries: seq<string>, code: FindingCode)
    ensures Reports(OpenFindings(entries), code) <==> entries != [] && code == UnresolvedEvidence
  {
    if entries != [] {
      var (init, last) := (entries[..|entries| - 1], OpenFinding(entries[|entries| - 1]));
      OpenReports(init, code);
      ReportsEither(OpenFindings(init), [last], code);
      assert last in [last];
    }
  }

  lemma RequestReports(s: Setting, code: FindingCode)
    ensures Reports(RequestFindings(s), code) <==> s.request.openFindings != [] && code == UnresolvedEvidence
  {
    var open := NormalizedFindings(s.ctx, s.request.openFindings);
    OpenReports(open, code);
    NothingOpenMeans(s);
    NothingListed(open);
    hide NormalizedFindings, Reports, OpenFindings;
  }

  lemma NothingListed(entries: seq<string>)
    ensures OpenFindings(entries) == [] <==> entries == []
  {
  }

  // ---------------------------------------------------------------- roles

  lemma {:induction false} OneOfRole(surfaces: seq<Surface>, role: Role)
    ensures RoleCount(surfaces, role) == 0 <==> forall j :: 0 <= j < |surfaces| ==> surfaces[j].role != role
    ensures RoleCount(surfaces, role) == 1 <==> OneHas(surfaces, role)
  {
    if surfaces != [] {
      var n := |surfaces| - 1;
      var init := surfaces[..n];
      OneOfRole(init, role);
      assert forall j :: 0 <= j < n ==> init[j] == surfaces[j];
      if surfaces[n].role == role {
        assert RoleCount(init, role) == 0 ==> OnlyAt(surfaces, role, n);
      } else {
        assert forall i :: 0 <= i < n ==> (OnlyAt(init, role, i) <==> OnlyAt(surfaces, role, i));
      }
    }
  }

  lemma CardinalityReports(surfaces: seq<Surface>, code: FindingCode)
    ensures Reports(CardinalityFindings(surfaces), code) <==>
      !(OneHas(surfaces, ExistingVerification) && OneHas(surfaces, TaskNamedCheck)) && code == InvalidEvidenceRequest
  {
    OneOfRole(surfaces, ExistingVerification);
    OneOfRole(surfaces, TaskNamedCheck);
    hide OneHas, RoleCount, AllVisible;
    var fs := CardinalityFindings(surfaces);
    assert |fs| == (if OneHas(surfaces, ExistingVerification) then 0 else 1)
      + (if OneHas(surfaces, TaskNamedCheck) then 0 else 1);
    assert forall f :: f in fs ==> f.code == InvalidEvidenceRequest;
    if fs != [] { assert fs[0] in fs; }
  }

  lemma ParseReports(value: Option<Request>, code: FindingCode)
    ensures Reports(ParseFindings(value), code) <==> ParsedRequest(value).None? && code == InvalidEvidenceRequest
  {
    var fs := ParseFindings(value);
    assert fs == [] <==> ParsedRequest(value).Some?;
    assert forall f :: f in fs ==> f.code == InvalidEvidenceRequest;
    if fs != [] { assert fs[0] in fs; }
    hide AllVisible;
  }

  lemma EndReports(canon: Canon, ctx: Context, r: Option<Request>, loaded: seq<Loaded>, code: FindingCode)
    requires code !in {DuplicateEvidenceSurface, DispatchReceiptInvalid, SelfGradedVerdict}
    ensures Reports(EndFindings(canon, ctx, r, loaded), code) <==>
      SourceMoved(canon, ctx) && code == SourceChangedDuringEvaluation
  {
    hide SourceMoved, SelfGraded, Count, Derived, OnlyOne, AllVisible, Visible, EndsVisibly;
    var fs := EndFindings(canon, ctx, r, loaded);
    assert forall f :: f in fs ==>
      f.code in {DuplicateEvidenceSurface, DispatchReceiptInvalid, SelfGradedVerdict, SourceChangedDuringEvaluation};
    if SourceMoved(canon, ctx) { assert fs[|fs| - 1] in fs; }
  }

  lemma ReadyMeans(canon: Canon, ctx: Context, r: Option<Request>)
    ensures Ready(canon, ctx, r).Some? <==> r.Some? && Looked(ctx)
    ensures Ready(canon, ctx, r).Some? ==> Ready(canon, ctx, r).value.request == r.value
  {
  }

  /** Which codes looking at the surfaces reports, those about one surface apart. */
  ghost predicate SurfacesSay(r: Request, code: FindingCode) {
    match code
    case UnresolvedEvidence => r.openFindings != []
    case InvalidEvidenceRequest => !(OneHas(r.surfaces, ExistingVerification) && OneHas(r.surfaces, TaskNamedCheck))
    case _ => false
  }

  lemma SurfacesReport(canon: Canon, ctx: Context, r: Option<Request>, code: FindingCode)
    requires !AboutASurface(code)
    ensures Reports(SurfaceFindings(canon, ctx, r), code) <==> r.Some? && Looked(ctx) && SurfacesSay(r.value, code)
  {
    hide Ready, Looked, CardinalityFindings, LoadFindings, RequestFindings, OneHas, AboutASurface, Reports;
    ReadyMeans(canon, ctx, r);
    NothingReported(code);
    match Ready(canon, ctx, r)
    case None =>
    case Some(s) =>
      var surfaces := s.request.surfaces;
      ReportsEither(CardinalityFindings(surfaces) + LoadFindings(s, surfaces), RequestFindings(s), code);
      ReportsEither(CardinalityFindings(surfaces), LoadFindings(s, surfaces), code);
      CardinalityReports(surfaces, code);
      LoadReports(s, surfaces, code);
      RequestReports(s, code);
  }

  lemma NothingReported(code: FindingCode)
    ensures !Reports([], code)
  {
  }

  lemma AllReports(canon: Canon, ctx: Context, value: Option<Request>, code: FindingCode)
    ensures var r := ParsedRequest(value);
      Reports(VerdictOf(canon, ctx, value).findings, code) <==>
        || Reports(ParseFindings(value), code) || Reports(StartFindings(canon, ctx, r), code)
        || Reports(SurfaceFindings(canon, ctx, r), code)
        || Reports(EndFindings(canon, ctx, r, LoadedSurfaces(canon, ctx, r)), code)
  {
    VerdictFindings(canon, ctx, value);
    hide *;
    ReportsUnique(ctx, AllFindings(canon, ctx, value), code);
    var r := ParsedRequest(value);
    var (p, st, su, e) := (ParseFindings(value), StartFindings(canon, ctx, r), SurfaceFindings(canon, ctx, r),
      EndFindings(canon, ctx, r, LoadedSurfaces(canon, ctx, r)));
    ReportsEither(p + st + su, e, code);
    ReportsEither(p + st, su, code);
    ReportsEither(p, st, code);
  }

  lemma VerdictFindings(canon: Canon, ctx: Context, value: Option<Request>)
    ensures VerdictOf(canon, ctx, value).findings == UniqueSortedFindings(ctx, AllFindings(canon, ctx, value))
    ensures var r := ParsedRequest(value);
      AllFindings(canon, ctx, value)
        == ParseFindings(value) + StartFindings(canon, ctx, r) + SurfaceFindings(canon, ctx, r)
           + EndFindings(canon, ctx, r, LoadedSurfaces(canon, ctx, r))
  {
    hide UniqueSortedFindings, ParseFindings, StartFindings, SurfaceFindings, EndFindings, LoadedSurfaces,
      ParsedRequest;
  }

  /** The accepted request of a value, if it is one. */
  predicate Asked(value: Option<Request>) { value.Some? && RequestOk(value.value) }

  predicate LeavesOpen(value: Option<Request>) { Asked(value) && value.value.openFindings != [] }

  /** There is not one surface, and no other, for each of the two roles. */
  ghost predicate LacksARole(value: Option<Request>) {
    && Asked(value)
    && !(OneHas(value.value.surfaces, ExistingVerification) && OneHas(value.value.surfaces, TaskNamedCheck))
  }

  /** An accepted request has a check named for it, and there is a baseline to verify against. */
  predicate HasBounds(ctx: Context, value: Option<Request>) {
    && Asked(value) && ctx.aggregateCheck.Some? && ctx.snapshotReadable
    && ctx.taskCheck(value.value.taskId).Some? && ctx.taskCheck(value.value.taskId).value != ""
  }

  /** Every finding that is not about one surface or the two together is reported exactly when what it says is so. */
  lemma ReportedExactly(canon: Canon, ctx: Context, value: Option<Request>)
    ensures var fs := VerdictOf(canon, ctx, value).findings;
      && (Reports(fs, TaskBoundsUnresolved) <==> !HasBounds(ctx, value))
      && (Reports(fs, SourceFingerprintUnavailable) <==> !SourceAvailable(ctx))
      && (Reports(fs, DispatchTrustAnchorUnavailable) <==> !ctx.anchorGiven)
      && (Reports(fs, EvidenceSinkUntrusted) <==> Tied(ctx) && !ctx.rootAttested)
      && (Reports(fs, SourceChangedDuringEvaluation) <==> SourceAvailable(ctx) && !Unmoved(canon, ctx))
      && (Reports(fs, UnresolvedEvidence) <==> LeavesOpen(value) && Looked(ctx))
      && (Reports(fs, InvalidEvidenceRequest) <==> !Asked(value) || (LacksARole(value) && Looked(ctx)))
  {
    hide VerdictOf, Reports, ParseFindings, StartFindings, SurfaceFindings, EndFindings, LoadedSurfaces, RequestOk,
      OneHas, SourceAvailable, Looked, Tied, SourceMoved, BoundsResolved, Unmoved;
    BoundsMean(ctx, value);
    MovedMeans(canon, ctx);
    Codes(canon, ctx, value, TaskBoundsUnresolved);
    Codes(canon, ctx, value, SourceFingerprintUnavailable);
    Codes(canon, ctx, value, DispatchTrustAnchorUnavailable);
    Codes(canon, ctx, value, EvidenceSinkUntrusted);
    Codes(canon, ctx, value, SourceChangedDuringEvaluation);
    Codes(canon, ctx, value, UnresolvedEvidence);
    Codes(canon, ctx, value, InvalidEvidenceRequest);
  }

  lemma BoundsMean(ctx: Context, value: Option<Request>)
    ensures BoundsResolved(ctx, ParsedRequest(value)) <==> HasBounds(ctx, value)
  {
    hide RequestOk;
  }

  lemma MovedMeans(canon: Canon, ctx: Context)
    ensures SourceAvailable(ctx) ==> ctx.sourceAtStart.Some?
    ensures SourceMoved(canon, ctx) <==> SourceAvailable(ctx) && !Unmoved(canon, ctx)
  {
  }

  lemma Codes(canon: Canon, ctx: Context, value: Option<Request>, code: FindingCode)
    requires !AboutASurface(code) && code !in {DuplicateEvidenceSurface, DispatchReceiptInvalid, SelfGradedVerdict}
    ensures var r := ParsedRequest(value);
      Reports(VerdictOf(canon, ctx, value).findings, code) <==>
        || (r.None? && code == InvalidEvidenceRequest) || StartSays(ctx, r, code)
        || (r.Some? && Looked(ctx) && SurfacesSay(r.value, code))
        || (SourceMoved(canon, ctx) && code == SourceChangedDuringEvaluation)
  {
    var r := ParsedRequest(value);
    hide *;
    AllReports(canon, ctx, value, code);
    ParseReports(value, code);
    StartReports(canon, ctx, r, code);
    SurfacesReport(canon, ctx, r, code);
    EndReports(canon, ctx, r, LoadedSurfaces(canon, ctx, r), code);
  }

  /** What a verified verdict says about its task, its checks, its source and its trust. */
  lemma VerifiedContents(canon: Canon, ctx: Context, value: Option<Request>)
    requires VerdictOf(canon, ctx, value).status.Verified?
    ensures var b := VerdictOf(canon, ctx, value);
      && value.Some? && Resolved(ctx, value.value.taskId)
      && b.taskId == value.value.taskId && b.verdictIssuingMechanism == "evidence-verdict-runner"
      && b.existingVerification == ctx.aggregateCheck.value && b.taskNamedCheck == ctx.taskCheck(b.taskId).value
      && b.sourceFingerprint == Some(Sealed(canon, ctx.sourceAtStart.value))
      && b.dispatchTrustPolicyDigest == ctx.resolvedPolicyDigest.value
      && b.findings == [] && b.rung == Rung("source-verified", false)
  {
    VerifiedExactly(canon, ctx, value);
    VerifiedMeaning(canon, ctx, value);
    hide AllFindings, UniqueSortedFindings, BuildReferences, LoadedSurfaces, BothCount, Supported;
  }
}
