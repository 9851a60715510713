/** Evaluating an evidence request: what is loaded, what is found wrong, and the verdict that follows. */
module EvidenceVerdicts {
  import opened EvidenceContracts
  import opened Options
  import opened Sorting
  import opened Texts

  /** What a readable surface turns out to be; the artifact is None unless the bytes hold a record of its shape. */
  datatype SurfaceFile = Forbidden | Unreadable | Contents(bytes: string, artifact: Option<Artifact>)

  /** What the evaluator finds around it: documents, trust, Git, files and signatures. */
  datatype Context = Context(
    aggregateCheck: Option<string>,
    snapshotReadable: bool,
    taskCheck: string -> Option<string>,
    anchorGiven: bool,
    resolvedPolicyDigest: Option<string>,
    gitResolves: bool,
    sourceAtStart: Option<FingerprintBody>,
    sourceAtEnd: Option<FingerprintBody>,
    rootAttested: bool,
    file: string -> SurfaceFile,
    stillCurrent: (Fingerprint, Fingerprint) -> bool,
    performerSigned: Artifact -> bool,
    issuerSigned: Receipt -> bool,
    reportsFailure: string -> bool,
    textOrder: (string, string) -> bool,
    findingOrder: (Finding, Finding) -> bool,
    surfaceOrder: (Surface, Surface) -> bool)

  function Seal(canon: Canon, body: FingerprintBody): Fingerprint {
    Fingerprint(body, canon.sha256(canon.fingerprintText(body)))
  }

  function Policy(ctx: Context): Option<string> {
    if ctx.aggregateCheck.Some? && ctx.anchorGiven then ctx.resolvedPolicyDigest else None
  }

  predicate GitTrusted(ctx: Context) { Policy(ctx).Some? && ctx.gitResolves }

  function SealedIf(canon: Canon, trusted: bool, body: Option<FingerprintBody>): Option<Fingerprint> {
    if trusted && body.Some? then Some(Seal(canon, body.value)) else None
  }

  function SourceAtStart(canon: Canon, ctx: Context): Option<Fingerprint> {
    SealedIf(canon, GitTrusted(ctx), ctx.sourceAtStart)
  }

  function SourceAtEnd(canon: Canon, ctx: Context): Option<Fingerprint> {
    SealedIf(canon, GitTrusted(ctx), ctx.sourceAtEnd)
  }

  predicate RootAttested(ctx: Context) { Policy(ctx).Some? && ctx.rootAttested }

  // ---------------------------------------------------------------- findings

  /** A finding whose detail has something to see. */
  predicate Visible(f: Finding) { HasVisible(f.detail) }

  predicate EndsVisibly(s: string) { s != "" && !IsSpace(s[|s| - 1]) }

  predicate AllVisible(fs: seq<Finding>) { forall i :: 0 <= i < |fs| ==> Visible(fs[i]) }

  /** The finding, if the condition holds. */
  function When(condition: bool, code: FindingCode, detail: string): (fs: seq<Finding>)
    requires EndsVisibly(detail)
    ensures AllVisible(fs) && |fs| == if condition then 1 else 0
  {
    if condition then
      assert !IsSpace(Finding(code, detail).detail[|detail| - 1]);
      [Finding(code, detail)]
    else []
  }

  // ---------------------------------------------------------------- the request

  predicate OpenFindingOk(s: string) { !Blank(s) && Utf16Length(s) <= 280 }

  predicate SurfaceOk(s: Surface) { !Blank(s.namedCheck) && !Blank(s.readableSurface) && Digest(s.sha256) }

  predicate RequestOk(r: Request) {
    && TaskId(r.taskId) && NamedMechanism(r.performingMechanism) && r.verdictIssuingMechanism == ISSUER
    && (forall i :: 0 <= i < |r.openFindings| ==> OpenFindingOk(r.openFindings[i]))
    && (forall i :: 0 <= i < |r.surfaces| ==> SurfaceOk(r.surfaces[i]))
  }

  /** Accepts a request record or says what is wrong with it; None is a value of another shape. */
  method ParseEvidenceRequest(value: Option<Request>) returns (request: Option<Request>, findings: seq<Finding>)
    ensures request.Some? <==> value.Some? && RequestOk(value.value)
    ensures request.Some? ==> request == value && findings == []
    ensures request.None? ==> |findings| == 1 && findings[0].code == InvalidEvidenceRequest
    ensures findings == ParseFindings(value) && request == ParsedRequest(value)
  {
    if value.None? { return None, [Finding(InvalidEvidenceRequest, "request schema is invalid")]; }
    var r := value.value;
    if !TaskId(r.taskId) || !NamedMechanism(r.performingMechanism) || r.verdictIssuingMechanism != ISSUER
      || exists i :: 0 <= i < |r.openFindings| && !OpenFindingOk(r.openFindings[i]) {
      return None, [Finding(InvalidEvidenceRequest, "request fields are invalid")];
    }
    for i := 0 to |r.surfaces|
      invariant forall k :: 0 <= k < i ==> SurfaceOk(r.surfaces[k])
    {
      if !SurfaceOk(r.surfaces[i]) { return None, [Finding(InvalidEvidenceRequest, "surface descriptor is invalid")]; }
    }
    return value, [];
  }

  function ParsedRequest(value: Option<Request>): Option<Request> {
    if value.Some? && RequestOk(value.value) then value else None
  }

  predicate FieldsOk(r: Request) {
    TaskId(r.taskId) && NamedMechanism(r.performingMechanism) && r.verdictIssuingMechanism == ISSUER
    && forall i :: 0 <= i < |r.openFindings| ==> OpenFindingOk(r.openFindings[i])
  }

  function ParseFindings(value: Option<Request>): (fs: seq<Finding>)
    ensures AllVisible(fs)
  {
    hide FieldsOk, RequestOk;
    if value.None? then When(true, InvalidEvidenceRequest, "request schema is invalid")
    else if !FieldsOk(value.value) then When(true, InvalidEvidenceRequest, "request fields are invalid")
    else When(!RequestOk(value.value), InvalidEvidenceRequest, "surface descriptor is invalid")
  }

  // ---------------------------------------------------------------- one surface

  /** The artifact a file holds, if its fields, digest, receipt and signature are in order. */
  function ParseCheckArtifact(canon: Canon, ctx: Context, value: Option<Artifact>): Option<ArtifactBody> {
    if value.Some? && ArtifactOk(canon, ctx, value.value) then Some(value.value.body) else None
  }

  predicate ArtifactOk(canon: Canon, ctx: Context, a: Artifact) {
    && !Blank(a.body.namedCheck) && NamedMechanism(a.body.performingMechanism)
    && Digest(a.body.dispatchTrustPolicyDigest) && ValidFingerprint(canon, a.body.sourceFingerprint)
    && (a.body.exitCode.Some? ==> a.body.exitCode.value >= 0)
    && Digest(a.artifactDigest)
    && ReceiptOk(canon, a.body.dispatchReceipt)
    && a.body.dispatchReceipt.body.performingMechanism == a.body.performingMechanism
    && canon.sha256(canon.artifactText(a.body)) == a.artifactDigest
    && ctx.performerSigned(a)
  }

  const OTHER_TASK := Finding(DispatchReceiptTaskMismatch, "dispatch receipt is bound to a different task")
  const OTHER_SOURCE :=
    Finding(DispatchReceiptSourceMismatch, "dispatch receipt is bound to a different authored-source fingerprint")
  const OTHER_PERFORMER :=
    Finding(PerformerIdentityMismatch, "caller performer label differs from the authoritative dispatch receipt")
  const UNTRUSTED :=
    Finding(DispatchReceiptUntrusted, "dispatch receipt is not signed by a distinct trusted dispatch authority")

  function Only(holds: bool, f: Finding): seq<Finding> { if holds then [f] else [] }

  /** The findings about a dispatch receipt, in the order of the checks. */
  function ReceiptFindings(ctx: Context, receipt: Receipt, taskId: string, source: Fingerprint, performing: string)
    : seq<Finding>
  {
    Only(receipt.body.taskId != taskId, OTHER_TASK)
    + Only(receipt.body.sourceFingerprint != source, OTHER_SOURCE)
    + Only(receipt.body.performingMechanism != performing, OTHER_PERFORMER)
    + Only(receipt.body.issuer == receipt.body.performingMechanism || receipt.body.issuer == ISSUER
           || !ctx.issuerSigned(receipt), UNTRUSTED)
  }

  datatype LoadOutcome = LoadOutcome(loaded: Option<Loaded>, findings: seq<Finding>)

  function AboutSurface(code: FindingCode, role: Role, detail: string): (f: Finding)
    ensures Visible(f)
  {
    assert (RoleText(role) + detail)[0] == RoleText(role)[0];
    assert !IsSpace(Finding(code, RoleText(role) + detail).detail[0]);
    Finding(code, RoleText(role) + detail)
  }

  function FailedLoad(code: FindingCode, role: Role, detail: string): (o: LoadOutcome)
    ensures o.loaded.None? && o.findings != [] && AllVisible(o.findings)
  {
    LoadOutcome(None, [AboutSurface(code, role, detail)])
  }

  predicate Passed(ctx: Context, a: ArtifactBody) {
    a.exitCode == Some(0) && !ctx.reportsFailure(a.stdout) && !ctx.reportsFailure(a.stderr)
  }

  /** Loads one surface: a wrong or untrusted one is only a finding, a failing check is loaded with a finding. */
  function LoadSurface(canon: Canon, ctx: Context, d: Surface, expected: string, taskId: string, performing: string,
      source: Fingerprint, policyDigest: string): LoadOutcome {
    if d.namedCheck != expected then
      FailedLoad(NamedCheckMismatch, d.role, " descriptor differs from its expected command")
    else
      match ctx.file(d.readableSurface)
      case Forbidden => FailedLoad(EvidencePathForbidden, d.role, " surface is outside the evidence directory")
      case Unreadable => FailedLoad(EvidenceUnreadable, d.role, " surface is absent or unreadable")
      case Contents(bytes, value) =>
        if canon.sha256(bytes) != d.sha256 then
          FailedLoad(EvidenceDigestMismatch, d.role, " surface digest does not match")
        else
          match ParseCheckArtifact(canon, ctx, value)
          case None => FailedLoad(EvidenceUnreadable, d.role, " surface does not contain a check artifact")
          case Some(a) => LoadArtifact(canon, ctx, d, a, expected, taskId, performing, source, policyDigest)
  }

  /** What first speaks against an artifact, with the rest of the sentence about its surface. */
  function ArtifactFault(ctx: Context, d: Surface, a: ArtifactBody, expected: string, taskId: string,
      performing: string, source: Fingerprint, policyDigest: string): Option<(FindingCode, string)> {
    var dispatch := ReceiptFindings(ctx, a.dispatchReceipt, taskId, a.sourceFingerprint, performing);
    if a.namedCheck != expected || a.namedCheck != d.namedCheck then
      Some((NamedCheckMismatch, " artifact names a different command"))
    else if !ctx.stillCurrent(a.sourceFingerprint, source) then
      Some((SourceFingerprintMismatch, " was captured from a different authored source"))
    else if !a.sourceStable then
      Some((SourceChangedDuringCheck, " observed authored-source drift while the check ran"))
    else if a.dispatchTrustPolicyDigest != policyDigest then
      Some((DispatchTrustAnchorMismatch, " was captured under a different external trust policy"))
    else if dispatch != [] then Some((dispatch[0].code, ": " + dispatch[0].detail))
    else if a.performingMechanism != a.dispatchReceipt.body.performingMechanism then
      Some((PerformerIdentityMismatch, " performer differs from its authoritative dispatch receipt"))
    else if a.outputTruncated || (Blank(a.stdout) && Blank(a.stderr)) then
      Some((EvidenceUnreadable, " output is empty or truncated"))
    else None
  }

  function LoadArtifact(canon: Canon, ctx: Context, d: Surface, a: ArtifactBody, expected: string, taskId: string,
      performing: string, source: Fingerprint, policyDigest: string): LoadOutcome {
    match ArtifactFault(ctx, d, a, expected, taskId, performing, source, policyDigest)
    case Some((code, detail)) => FailedLoad(code, d.role, detail)
    case None =>
      var result := CheckResult(a.namedCheck, a.ran, Passed(ctx, a), canon.summaryText(a), d.readableSurface);
      var loaded := Some(Loaded(d, a, result));
      if !a.ran then LoadOutcome(loaded, [AboutSurface(CheckNotRun, d.role, " did not run")])
      else if !result.passed then LoadOutcome(loaded, [AboutSurface(CheckFailed, d.role, " recorded a failing result")])
      else LoadOutcome(loaded, [])
  }

  // ---------------------------------------------------------------- all surfaces

  function RoleCount(surfaces: seq<Surface>, role: Role): nat {
    if surfaces == [] then 0
    else RoleCount(surfaces[..|surfaces| - 1], role) + (if surfaces[|surfaces| - 1].role == role then 1 else 0)
  }

  function CardinalityFindings(surfaces: seq<Surface>): (fs: seq<Finding>)
    ensures AllVisible(fs)
  {
    When(RoleCount(surfaces, ExistingVerification) != 1,
      InvalidEvidenceRequest, "expected exactly one existing-verification surface")
    + When(RoleCount(surfaces, TaskNamedCheck) != 1,
        InvalidEvidenceRequest, "expected exactly one task-named-check surface")
  }

  /** What a ready evaluation works with. */
  datatype Setting = Setting(canon: Canon, ctx: Context, request: Request, source: Fingerprint, policyDigest: string,
    existingVerification: string, taskNamedCheck: string)

  function LoadIn(s: Setting, d: Surface): LoadOutcome {
    LoadSurface(s.canon, s.ctx, d, if d.role.ExistingVerification? then s.existingVerification else s.taskNamedCheck,
      s.request.taskId, s.request.performingMechanism, s.source, s.policyDigest)
  }

  function LoadedFrom(s: Setting, surfaces: seq<Surface>): seq<Loaded> {
    if surfaces == [] then []
    else
      var outcome := LoadIn(s, surfaces[|surfaces| - 1]);
      LoadedFrom(s, surfaces[..|surfaces| - 1]) + (if outcome.loaded.Some? then [outcome.loaded.value] else [])
  }

  function LoadFindings(s: Setting, surfaces: seq<Surface>): seq<Finding> {
    if surfaces == [] then []
    else LoadFindings(s, surfaces[..|surfaces| - 1]) + LoadIn(s, surfaces[|surfaces| - 1]).findings
  }

  function Trimmed(entries: seq<string>): seq<string> {
    seq(|entries|, i requires 0 <= i < |entries| => Trim(entries[i]))
  }

  /** The open findings of a request trimmed, each text once, in order. */
  function NormalizedFindings(ctx: Context, entries: seq<string>): seq<string> {
    SortBy(ctx.textOrder, Unique(Trimmed(entries)))
  }

  function OpenFinding(entry: string): Finding { Finding(UnresolvedEvidence, "open finding: " + entry) }

  function OpenFindings(entries: seq<string>): seq<Finding> {
    if entries == [] then [] else OpenFindings(entries[..|entries| - 1]) + [OpenFinding(entries[|entries| - 1])]
  }

  function RequestFindings(s: Setting): seq<Finding> { OpenFindings(NormalizedFindings(s.ctx, s.request.openFindings)) }

  function TaskCheck(ctx: Context, request: Option<Request>): Option<string> {
    if request.Some? && ctx.snapshotReadable then ctx.taskCheck(request.value.taskId) else None
  }

  function OrUnresolved(s: Option<string>): string { if s.Some? then s.value else UNRESOLVED }

  predicate BoundsResolved(ctx: Context, request: Option<Request>) {
    && ctx.aggregateCheck.Some? && ctx.snapshotReadable
    && TaskCheck(ctx, request).Some? && TaskCheck(ctx, request).value != ""
  }

  function BoundsFindings(ctx: Context, request: Option<Request>): (fs: seq<Finding>)
    ensures AllVisible(fs) && (fs == [] <==> BoundsResolved(ctx, request))
  {
    hide BoundsResolved;
    When(!BoundsResolved(ctx, request), TaskBoundsUnresolved, "verification baseline or task named check is unresolved")
  }

  function SourceFindings(canon: Canon, ctx: Context): (fs: seq<Finding>)
    ensures AllVisible(fs) && (fs == [] <==> SourceAtStart(canon, ctx).Some?)
  {
    hide SourceAtStart;
    When(SourceAtStart(canon, ctx).None?,
      SourceFingerprintUnavailable, "current HEAD, authored tree, or reachable implementation baseline is unresolved")
  }

  function TrustFindings(ctx: Context): (fs: seq<Finding>)
    ensures AllVisible(fs) && (fs == [] <==> ctx.anchorGiven && Policy(ctx).Some? && RootAttested(ctx))
  {
    hide Policy, RootAttested;
    When(!ctx.anchorGiven,
      DispatchTrustAnchorUnavailable, "external evaluator dispatch trust anchor is unavailable")
    + When(ctx.anchorGiven && Policy(ctx).None?,
        DispatchTrustAnchorMismatch,
        "external evaluator trust anchor differs from the baseline projection or policy digest")
    + When(Policy(ctx).Some? && !RootAttested(ctx),
        EvidenceSinkUntrusted, "external evaluator has not attested exclusive stable evidence-sink ancestry")
  }

  /** The findings that do not depend on any surface. */
  function StartFindings(canon: Canon, ctx: Context, request: Option<Request>): (fs: seq<Finding>)
    ensures AllVisible(fs)
  {
    BoundsFindings(ctx, request) + SourceFindings(canon, ctx) + TrustFindings(ctx)
  }

  /** The surfaces are looked at only when everything they are judged by is resolved. */
  function Ready(canon: Canon, ctx: Context, request: Option<Request>): Option<Setting> {
    var source := SourceAtStart(canon, ctx);
    if request.Some? && RootAttested(ctx) && ctx.aggregateCheck.Some? && source.Some? && Policy(ctx).Some?
      && GitTrusted(ctx) then
      Some(Setting(canon, ctx, request.value, source.value, Policy(ctx).value,
        ctx.aggregateCheck.value, OrUnresolved(TaskCheck(ctx, request))))
    else None
  }

  // ---------------------------------------------------------------- judging what was loaded

  function Count<T(==)>(xs: seq<T>): nat { |set x | x in xs| }

  function Surfaces(loaded: seq<Loaded>): (r: seq<string>)
    ensures |r| == |loaded|
  {
    seq(|loaded|, i requires 0 <= i < |loaded| => loaded[i].descriptor.readableSurface)
  }

  function Performers(loaded: seq<Loaded>): (r: seq<string>)
    ensures |r| == |loaded|
  {
    seq(|loaded|, i requires 0 <= i < |loaded| => loaded[i].artifact.dispatchReceipt.body.performingMechanism)
  }

  function Receipts(loaded: seq<Loaded>): (r: seq<string>)
    ensures |r| == |loaded|
  {
    seq(|loaded|, i requires 0 <= i < |loaded| => loaded[i].artifact.dispatchReceipt.receiptDigest)
  }

  function Results(loaded: seq<Loaded>): (r: seq<CheckResult>)
    ensures |r| == |loaded|
  {
    seq(|loaded|, i requires 0 <= i < |loaded| => loaded[i].result)
  }

  function OnlyOne(xs: seq<string>, otherwise: string): string {
    if Count(xs) == 1 && xs != [] then xs[0] else otherwise
  }

  predicate Derived(request: Option<Request>, loaded: seq<Loaded>) {
    request.Some? && |loaded| == 2 && Count(Surfaces(loaded)) == 2 && Count(Performers(loaded)) == 1
      && Count(Receipts(loaded)) == 1
  }

  function LoadedFindings(loaded: seq<Loaded>): (fs: seq<Finding>)
    ensures AllVisible(fs)
  {
    hide Count;
    When(|loaded| == 2 && Count(Surfaces(loaded)) != 2,
      DuplicateEvidenceSurface, "the two gates must use distinct readable surfaces")
    + When(|loaded| > 0 && (Count(Performers(loaded)) != 1 || Count(Receipts(loaded)) != 1),
        DispatchReceiptInvalid, "surfaced checks do not share one authoritative dispatch receipt")
  }

  predicate Matches(l: Loaded, r: CheckResult) {
    l.result.namedCheck == r.namedCheck && l.result.readableSurface == r.readableSurface
  }

  function SourceOf(loaded: seq<Loaded>, r: CheckResult): (l: Loaded)
    requires exists i :: 0 <= i < |loaded| && Matches(loaded[i], r)
    ensures l in loaded && Matches(l, r)
  {
    if Matches(loaded[0], r) then loaded[0] else SourceOf(loaded[1..], r)
  }

  lemma {:induction false} EmittedPassed(loaded: seq<Loaded>, r: CheckResult)
    ensures r in EmitReferences(Results(loaded)) ==>
      r.ran && r.passed && exists i :: 0 <= i < |loaded| && loaded[i].result == r && Matches(loaded[i], r)
    decreases |loaded|
  {
    if loaded != [] {
      var init := loaded[..|loaded| - 1];
      assert Results(loaded)[..|loaded| - 1] == Results(init);
      EmittedPassed(init, r);
      if r in EmitReferences(Results(init)) {
        var i :| 0 <= i < |init| && init[i].result == r && Matches(init[i], r);
        assert loaded[i].result == r && Matches(loaded[i], r);
      } else if r == Results(loaded)[|loaded| - 1] {
        assert loaded[|loaded| - 1].result == r && Matches(loaded[|loaded| - 1], r);
      }
    }
  }

  function ReferenceFor(loaded: seq<Loaded>, r: CheckResult): Reference
    requires exists i :: 0 <= i < |loaded| && Matches(loaded[i], r)
  {
    var source := SourceOf(loaded, r);
    Reference(source.descriptor.role, r.namedCheck, r.recordedResult, r.readableSurface, source.descriptor.sha256)
  }

  predicate RoleOrder(a: Reference, b: Reference) { a.role.ExistingVerification? || b.role.TaskNamedCheck? }

  /**
   One reference for each passed check, with the role and digest of the surface it came from; the source is never
   missing.
   */
  function BuildReferences(loaded: seq<Loaded>): seq<Reference> {
    var emitted := EmitReferences(Results(loaded));
    assert forall i :: 0 <= i < |emitted| ==> exists k :: 0 <= k < |loaded| && Matches(loaded[k], emitted[i]) by {
      forall i | 0 <= i < |emitted| ensures exists k :: 0 <= k < |loaded| && Matches(loaded[k], emitted[i]) {
        EmittedPassed(loaded, emitted[i]);
      }
    }
    SortBy(RoleOrder, seq(|emitted|, i requires 0 <= i < |emitted| => ReferenceFor(loaded, emitted[i])))
  }

  // ---------------------------------------------------------------- the verdict

  function LoadedSurfaces(canon: Canon, ctx: Context, request: Option<Request>): seq<Loaded> {
    match Ready(canon, ctx, request)
    case None => []
    case Some(s) => LoadedFrom(s, s.request.surfaces)
  }

  function SurfaceFindings(canon: Canon, ctx: Context, request: Option<Request>): seq<Finding> {
    match Ready(canon, ctx, request)
    case None => []
    case Some(s) =>
      CardinalityFindings(s.request.surfaces) + LoadFindings(s, s.request.surfaces) + RequestFindings(s)
  }

  function Issuing(request: Option<Request>): string {
    if request.Some? then request.value.verdictIssuingMechanism else UNRESOLVED
  }

  predicate SourceMoved(canon: Canon, ctx: Context) {
    var start, end := SourceAtStart(canon, ctx), SourceAtEnd(canon, ctx);
    start.Some? && (end.None? || !ctx.stillCurrent(start.value, end.value))
  }

  function EndFindings(canon: Canon, ctx: Context, request: Option<Request>, loaded: seq<Loaded>): (fs: seq<Finding>)
    ensures AllVisible(fs)
  {
    hide LoadedFindings, SelfGraded, SourceMoved, Derived, OnlyOne;
    LoadedFindings(loaded)
    + When(SelfGraded(OnlyOne(Performers(loaded), UNRESOLVED), Issuing(request), Derived(request, loaded)),
        SelfGradedVerdict, "verdict is self-issued or relies on unsurfaced output")
    + When(SourceMoved(canon, ctx),
        SourceChangedDuringEvaluation, "authored source changed while evidence was evaluated")
  }

  function AllFindings(canon: Canon, ctx: Context, value: Option<Request>): seq<Finding> {
    var request := ParsedRequest(value);
    ParseFindings(value) + StartFindings(canon, ctx, request) + SurfaceFindings(canon, ctx, request)
    + EndFindings(canon, ctx, request, LoadedSurfaces(canon, ctx, request))
  }

  function UniqueSortedFindings(ctx: Context, findings: seq<Finding>): seq<Finding> {
    SortBy(ctx.findingOrder, Unique(findings))
  }

  /** The verdict on what was loaded and found. */
  function Assemble(canon: Canon, ctx: Context, request: Option<Request>, loaded: seq<Loaded>, found: seq<Finding>)
    : VerdictBody
  {
    var findings := UniqueSortedFindings(ctx, found);
    var references := BuildReferences(loaded);
    var receiptDigest := OnlyOne(Receipts(loaded), canon.sha256(UNRESOLVED_RECEIPT));
    var policyDigest := if Policy(ctx).Some? then Policy(ctx).value else canon.sha256(UNRESOLVED_POLICY);
    var source := SourceAtStart(canon, ctx);
    var surfaces := if request.Some? then SortBy(ctx.surfaceOrder, request.value.surfaces) else [];
    VerdictBody(
      if request.Some? then request.value.taskId else UNRESOLVED,
      if |findings| == 0 && |references| == 2 then Verified else Failed,
      OnlyOne(Performers(loaded), UNRESOLVED), Issuing(request), Derived(request, loaded),
      OrUnresolved(ctx.aggregateCheck), OrUnresolved(TaskCheck(ctx, request)),
      source, receiptDigest, policyDigest, references, findings, DeriveRung(references, |findings|),
      canon.sha256(canon.evidenceText(receiptDigest, policyDigest, source, surfaces)))
  }

  function VerdictOf(canon: Canon, ctx: Context, value: Option<Request>): VerdictBody {
    var request := ParsedRequest(value);
    Assemble(canon, ctx, request, LoadedSurfaces(canon, ctx, request), AllFindings(canon, ctx, value))
  }

  function SealVerdict(canon: Canon, body: VerdictBody): Verdict {
    Verdict(body, canon.sha256(canon.verdictText(body)))
  }

  /** Gathers the findings step by step and seals the verdict. */
  method EvaluateEvidenceRequest(canon: Canon, ctx: Context, value: Option<Request>) returns (verdict: Verdict)
    ensures verdict == SealVerdict(canon, VerdictOf(canon, ctx, value))
  {
    hide Assemble, LoadIn, StartFindings, CardinalityFindings, EndFindings, ParsedRequest, ParseFindings, Ready;
    var request, findings := ParseEvidenceRequest(value);
    findings := findings + StartFindings(canon, ctx, request);
    var setting := Ready(canon, ctx, request);
    var loaded: seq<Loaded>, found: seq<Finding> := [], [];
    if setting.Some? { loaded, found := LoadSurfaces(setting.value); }
    findings := findings + found;
    findings := findings + EndFindings(canon, ctx, request, loaded);
    verdict := SealVerdict(canon, Assemble(canon, ctx, request, loaded, findings));
  }

  /** Looks at every surface in turn, after counting the roles and before listing the open findings. */
  method LoadSurfaces(s: Setting) returns (loaded: seq<Loaded>, findings: seq<Finding>)
    ensures loaded == LoadedFrom(s, s.request.surfaces)
    ensures findings
      == CardinalityFindings(s.request.surfaces) + LoadFindings(s, s.request.surfaces) + RequestFindings(s)
  {
    hide LoadIn, CardinalityFindings, NormalizedFindings;
    var surfaces, open := s.request.surfaces, NormalizedFindings(s.ctx, s.request.openFindings);
    loaded, findings := [], CardinalityFindings(surfaces);
    ghost var start := findings;
    for i := 0 to |surfaces|
      invariant loaded == LoadedFrom(s, surfaces[..i])
      invariant findings == start + LoadFindings(s, surfaces[..i])
    {
      var outcome := LoadIn(s, surfaces[i]);
      assert surfaces[..i + 1][..i] == surfaces[..i];
      findings := findings + outcome.findings;
      if outcome.loaded.Some? { loaded := loaded + [outcome.loaded.value]; }
    }
    assert surfaces[..|surfaces|] == surfaces;
    ghost var middle := findings;
    for i := 0 to |open|
      invariant findings == middle + OpenFindings(open[..i])
    {
      assert open[..i + 1][..i] == open[..i];
      findings := findings + [OpenFinding(open[i])];
    }
    assert open[..|open|] == open;
  }
}
