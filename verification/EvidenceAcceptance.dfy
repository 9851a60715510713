/** Exactly which files count as evidence and which evaluations are verified, by the fields they are judged by. */
module EvidenceAcceptance {
  import opened EvidenceContracts
  import opened EvidenceVerdicts
  import opened Options
  import opened Texts
  import opened VerdictValidation

  // ---------------------------------------------------------------- one surface, field by field

  predicate FingerprintFits(canon: Canon, f: Fingerprint) {
    && HexBetween(f.body.implementationBaseline, 40, 40) && HexBetween(f.body.headRevision, 40, 64)
    && 0 <= f.body.authoredFileCount <= 9007199254740991
    && Digest(f.body.authoredTreeSha256) && Digest(f.fingerprintDigest)
    && f.fingerprintDigest == canon.sha256(canon.fingerprintText(f.body))
  }

  /** The receipt names its parties and carries its own digest. */
  predicate ReceiptFits(canon: Canon, r: Receipt) {
    && NamedMechanism(r.body.performingMechanism) && NamedMechanism(r.body.issuer) && NamedMechanism(r.body.issuerKeyId)
    && FingerprintFits(canon, r.body.sourceFingerprint)
    && Digest(r.receiptDigest) && r.receiptDigest == canon.sha256(canon.receiptText(r.body))
  }

  /** The artifact is complete, carries its own digest and is signed by its performer, who is the one of its receipt. */
  predicate ArtifactFits(canon: Canon, ctx: Context, a: Artifact) {
    && HasVisible(a.body.namedCheck) && NamedMechanism(a.body.performingMechanism)
    && Digest(a.body.dispatchTrustPolicyDigest) && FingerprintFits(canon, a.body.sourceFingerprint)
    && (match a.body.exitCode case None => true case Some(code) => code >= 0)
    && ReceiptFits(canon, a.body.dispatchReceipt)
    && a.body.dispatchReceipt.body.performingMechanism == a.body.performingMechanism
    && Digest(a.artifactDigest) && a.artifactDigest == canon.sha256(canon.artifactText(a.body))
    && ctx.performerSigned(a)
  }

  /** The receipt is for this task, source and performer, and signed by a trusted issuer who is someone else. */
  predicate ReceiptCounts(ctx: Context, r: Receipt, taskId: string, source: Fingerprint, performer: string) {
    && r.body.taskId == taskId && r.body.sourceFingerprint == source && r.body.performingMechanism == performer
    && r.body.issuer != performer && r.body.issuer != "evidence-verdict-runner" && ctx.issuerSigned(r)
  }

  /** The command that a surface of each role has to report. */
  function Expected(s: Setting, d: Surface): string {
    match d.role
    case ExistingVerification => s.existingVerification
    case TaskNamedCheck => s.taskNamedCheck
  }

  /** The file at a surface holds an artifact that counts for it. */
  predicate Counts(s: Setting, d: Surface, bytes: string, a: Artifact) {
    && s.ctx.file(d.readableSurface) == Contents(bytes, Some(a)) && s.canon.sha256(bytes) == d.sha256
    && d.namedCheck == Expected(s, d) && a.body.namedCheck == Expected(s, d)
    && ArtifactFits(s.canon, s.ctx, a)
    && s.ctx.stillCurrent(a.body.sourceFingerprint, s.source) && a.body.sourceStable
    && a.body.dispatchTrustPolicyDigest == s.policyDigest
    && ReceiptCounts(s.ctx, a.body.dispatchReceipt, s.request.taskId, a.body.sourceFingerprint,
         s.request.performingMechanism)
    && !a.body.outputTruncated && (HasVisible(a.body.stdout) || HasVisible(a.body.stderr))
  }

  /** The check of an artifact ended well: it ran, exited with zero and reported no failure on either output. */
  predicate Succeeded(ctx: Context, a: ArtifactBody) {
    a.ran && a.exitCode == Some(0) && !ctx.reportsFailure(a.stdout) && !ctx.reportsFailure(a.stderr)
  }

  // ---------------------------------------------------------------- what is loaded

  lemma ArtifactMeaning(canon: Canon, ctx: Context, a: Artifact)
    ensures ArtifactOk(canon, ctx, a) <==> ArtifactFits(canon, ctx, a)
  {
    hide NamedMechanism, Digest, HexBetween, Trim, HasVisible;
    TrimLeavesVisible(a.body.namedCheck);
  }

  lemma ReceiptMeaning(ctx: Context, r: Receipt, taskId: string, source: Fingerprint, performer: string)
    ensures ReceiptFindings(ctx, r, taskId, source, performer) == [] <==>
      ReceiptCounts(ctx, r, taskId, source, performer)
  {
    hide OTHER_TASK, OTHER_SOURCE, OTHER_PERFORMER, UNTRUSTED;
    IssuerName();
    hide ISSUER;
  }

  lemma IssuerName()
    ensures ISSUER == "evidence-verdict-runner"
  {
  }

  lemma BlankMeaning(s: string)
    ensures Blank(s) <==> !HasVisible(s)
  {
    TrimLeavesVisible(s);
  }

  /** Nothing speaks against an artifact exactly when everything about it fits. */
  lemma FaultMeaning(s: Setting, d: Surface, a: ArtifactBody)
    requires d.namedCheck == Expected(s, d)
    ensures ArtifactFault(s.ctx, d, a, Expected(s, d), s.request.taskId, s.request.performingMechanism, s.source,
        s.policyDigest).None? <==>
      && a.namedCheck == Expected(s, d) && s.ctx.stillCurrent(a.sourceFingerprint, s.source) && a.sourceStable
      && a.dispatchTrustPolicyDigest == s.policyDigest
      && ReceiptCounts(s.ctx, a.dispatchReceipt, s.request.taskId, a.sourceFingerprint, s.request.performingMechanism)
      && a.performingMechanism == a.dispatchReceipt.body.performingMechanism
      && !a.outputTruncated && (HasVisible(a.stdout) || HasVisible(a.stderr))
  {
    hide ReceiptFindings, ReceiptCounts, Blank, HasVisible, Expected;
    ReceiptMeaning(s.ctx, a.dispatchReceipt, s.request.taskId, a.sourceFingerprint, s.request.performingMechanism);
    BlankMeaning(a.stdout);
    BlankMeaning(a.stderr);
  }

  function ResultOf(s: Setting, d: Surface, a: ArtifactBody): CheckResult {
    CheckResult(a.namedCheck, a.ran,
      a.exitCode == Some(0) && !s.ctx.reportsFailure(a.stdout) && !s.ctx.reportsFailure(a.stderr),
      s.canon.summaryText(a), d.readableSurface)
  }

  /** A surface is loaded exactly when its file counts for it, with the result its artifact records. */
  lemma LoadedExactly(s: Setting, d: Surface)
    ensures LoadIn(s, d).loaded.Some? <==> exists bytes, a :: Counts(s, d, bytes, a)
    ensures forall bytes, a :: Counts(s, d, bytes, a) ==>
      && LoadIn(s, d).loaded == Some(Loaded(d, a.body, ResultOf(s, d, a.body)))
      && (LoadIn(s, d).findings == [] <==> Succeeded(s.ctx, a.body))
    ensures LoadIn(s, d).findings == [] <==> exists bytes, a :: Counts(s, d, bytes, a) && Succeeded(s.ctx, a.body)
  {
    var file := s.ctx.file(d.readableSurface);
    if file.Contents? && file.artifact.Some? {
      LoadedFromFile(s, d, file.bytes, file.artifact.value);
    } else {
      NothingToLoad(s, d);
    }
    hide LoadIn, Succeeded;
  }

  lemma NothingToLoad(s: Setting, d: Surface)
    requires var file := s.ctx.file(d.readableSurface); !(file.Contents? && file.artifact.Some?)
    ensures LoadIn(s, d).loaded.None? && LoadIn(s, d).findings != []
  {
    hide ArtifactOk, LoadArtifact;
  }

  lemma LoadedFromFile(s: Setting, d: Surface, bytes: string, a: Artifact)
    requires s.ctx.file(d.readableSurface) == Contents(bytes, Some(a))
    ensures Counts(s, d, bytes, a) ==>
      && LoadIn(s, d).loaded == Some(Loaded(d, a.body, ResultOf(s, d, a.body)))
      && (LoadIn(s, d).findings == [] <==> Succeeded(s.ctx, a.body))
    ensures !Counts(s, d, bytes, a) ==> LoadIn(s, d).loaded.None? && LoadIn(s, d).findings != []
  {
    hide ArtifactOk, ArtifactFits, ArtifactFault, ReceiptCounts, HasVisible, AboutSurface, Visible, AllVisible;
    ArtifactMeaning(s.canon, s.ctx, a);
    if d.namedCheck == Expected(s, d) {
      FaultMeaning(s, d, a.body);
      if ArtifactOk(s.canon, s.ctx, a) { PerformersAgree(s.canon, s.ctx, a); }
    }
  }

  lemma PerformersAgree(canon: Canon, ctx: Context, a: Artifact)
    requires ArtifactOk(canon, ctx, a)
    ensures a.body.performingMechanism == a.body.dispatchReceipt.body.performingMechanism
  {
  }

  // ---------------------------------------------------------------- why a surface is not loaded

  /** The artifact at a surface, complete and undamaged. */
  ghost predicate Found(s: Setting, d: Surface, a: ArtifactBody) {
    var file := s.ctx.file(d.readableSurface);
    && file.Contents? && file.artifact.Some? && file.artifact.value.body == a
    && ArtifactFits(s.canon, s.ctx, file.artifact.value)
  }

  /** What each finding about a surface says is so. */
  ghost predicate Cause(s: Setting, d: Surface, code: FindingCode) {
    var file := s.ctx.file(d.readableSurface);
    match code
    case EvidencePathForbidden => file.Forbidden?
    case EvidenceDigestMismatch => file.Contents? && s.canon.sha256(file.bytes) != d.sha256
    case NamedCheckMismatch =>
      d.namedCheck != Expected(s, d) || exists a :: Found(s, d, a) && a.namedCheck != d.namedCheck
    case EvidenceUnreadable =>
      file.Unreadable? || (file.Contents? && !exists a :: Found(s, d, a))
      || exists a :: Found(s, d, a) && (a.outputTruncated || !(HasVisible(a.stdout) || HasVisible(a.stderr)))
    case SourceFingerprintMismatch => exists a :: Found(s, d, a) && !s.ctx.stillCurrent(a.sourceFingerprint, s.source)
    case SourceChangedDuringCheck => exists a :: Found(s, d, a) && !a.sourceStable
    case DispatchTrustAnchorMismatch => exists a :: Found(s, d, a) && a.dispatchTrustPolicyDigest != s.policyDigest
    case DispatchReceiptTaskMismatch =>
      exists a :: Found(s, d, a) && a.dispatchReceipt.body.taskId != s.request.taskId
    case DispatchReceiptSourceMismatch =>
      exists a :: Found(s, d, a) && a.dispatchReceipt.body.sourceFingerprint != a.sourceFingerprint
    case PerformerIdentityMismatch =>
      exists a :: Found(s, d, a) && a.dispatchReceipt.body.performingMechanism != s.request.performingMechanism
    case DispatchReceiptUntrusted =>
      exists a :: Found(s, d, a)
        && (a.dispatchReceipt.body.issuer == a.performingMechanism || a.dispatchReceipt.body.issuer == ISSUER
            || !s.ctx.issuerSigned(a.dispatchReceipt))
    case CheckNotRun => exists a :: Found(s, d, a) && !a.ran
    case CheckFailed => exists a :: Found(s, d, a) && a.ran && !Succeeded(s.ctx, a)
    case _ => false
  }

  /** A surface has at most one finding, and what it says is so. */
  lemma FindingHasCause(s: Setting, d: Surface)
    ensures |LoadIn(s, d).findings| <= 1
    ensures LoadIn(s, d).findings != [] ==> Cause(s, d, LoadIn(s, d).findings[0].code)
  {
    hide ArtifactOk, LoadArtifact, Visible, Succeeded, AllVisible, Found, ArtifactFits, HasVisible;
    var file := s.ctx.file(d.readableSurface);
    if file.Contents? && file.artifact.Some? {
      var a := file.artifact.value;
      ArtifactMeaning(s.canon, s.ctx, a);
      FoundMeaning(s, d);
      if ArtifactOk(s.canon, s.ctx, a) && d.namedCheck == Expected(s, d) { ArtifactFindingHasCause(s, d, a.body); }
    } else {
      FoundMeaning(s, d);
    }
  }

  lemma FoundMeaning(s: Setting, d: Surface)
    ensures var file := s.ctx.file(d.readableSurface);
      if file.Contents? && file.artifact.Some? && ArtifactFits(s.canon, s.ctx, file.artifact.value)
      then Found(s, d, file.artifact.value.body) else forall a :: !Found(s, d, a)
  {
    hide ArtifactFits;
  }

  lemma ArtifactFindingHasCause(s: Setting, d: Surface, a: ArtifactBody)
    requires Found(s, d, a) && d.namedCheck == Expected(s, d)
    ensures var o := LoadArtifact(s.canon, s.ctx, d, a, Expected(s, d), s.request.taskId, s.request.performingMechanism,
        s.source, s.policyDigest);
      |o.findings| <= 1 && (o.findings != [] ==> Cause(s, d, o.findings[0].code))
  {
    hide ArtifactFault, Visible, AllVisible, Found, Expected, Cause;
    var fault := ArtifactFault(s.ctx, d, a, Expected(s, d), s.request.taskId, s.request.performingMechanism, s.source,
      s.policyDigest);
    if fault.Some? { FaultHasCause(s, d, a); } else { OutcomeHasCause(s, d, a); }
  }

  lemma OutcomeHasCause(s: Setting, d: Surface, a: ArtifactBody)
    requires Found(s, d, a)
    ensures !a.ran ==> Cause(s, d, CheckNotRun)
    ensures a.ran && !Passed(s.ctx, a) ==> Cause(s, d, CheckFailed)
  {
    hide Found;
  }

  /** Every reason to refuse an artifact is the cause of its own finding. */
  lemma Causes(s: Setting, d: Surface, a: ArtifactBody)
    requires Found(s, d, a)
    ensures a.namedCheck != d.namedCheck ==> Cause(s, d, NamedCheckMismatch)
    ensures !s.ctx.stillCurrent(a.sourceFingerprint, s.source) ==> Cause(s, d, SourceFingerprintMismatch)
    ensures !a.sourceStable ==> Cause(s, d, SourceChangedDuringCheck)
    ensures a.dispatchTrustPolicyDigest != s.policyDigest ==> Cause(s, d, DispatchTrustAnchorMismatch)
    ensures a.outputTruncated || !(HasVisible(a.stdout) || HasVisible(a.stderr)) ==> Cause(s, d, EvidenceUnreadable)
  {
    hide Found, HasVisible, Expected;
  }

  lemma ReceiptCauses(s: Setting, d: Surface, a: ArtifactBody)
    requires Found(s, d, a)
    ensures a.dispatchReceipt.body.taskId != s.request.taskId ==> Cause(s, d, DispatchReceiptTaskMismatch)
    ensures a.dispatchReceipt.body.sourceFingerprint != a.sourceFingerprint ==>
      Cause(s, d, DispatchReceiptSourceMismatch)
    ensures a.dispatchReceipt.body.performingMechanism != s.request.performingMechanism ==>
      Cause(s, d, PerformerIdentityMismatch)
    ensures (|| a.dispatchReceipt.body.issuer == a.performingMechanism || a.dispatchReceipt.body.issuer == ISSUER
             || !s.ctx.issuerSigned(a.dispatchReceipt)) ==> Cause(s, d, DispatchReceiptUntrusted)
  {
    hide Found, HasVisible, Expected, ISSUER;
  }

  lemma FaultHasCause(s: Setting, d: Surface, a: ArtifactBody)
    requires Found(s, d, a) && d.namedCheck == Expected(s, d)
    requires ArtifactFault(s.ctx, d, a, Expected(s, d), s.request.taskId, s.request.performingMechanism, s.source,
      s.policyDigest).Some?
    ensures Cause(s, d, ArtifactFault(s.ctx, d, a, Expected(s, d), s.request.taskId, s.request.performingMechanism,
      s.source, s.policyDigest).value.0)
  {
    hide Found, ReceiptFindings, Blank, HasVisible, Expected, Cause;
    FoundPerformer(s, d, a);
    BlankMeaning(a.stdout);
    BlankMeaning(a.stderr);
    Causes(s, d, a);
    ReceiptFindingCodes(s, d, a);
  }

  lemma FoundPerformer(s: Setting, d: Surface, a: ArtifactBody)
    requires Found(s, d, a)
    ensures a.performingMechanism == a.dispatchReceipt.body.performingMechanism
  {
  }

  lemma ReceiptFindingCodes(s: Setting, d: Surface, a: ArtifactBody)
    requires Found(s, d, a)
    ensures var fs := ReceiptFindings(s.ctx, a.dispatchReceipt, s.request.taskId, a.sourceFingerprint,
        s.request.performingMechanism);
      fs != [] ==> Cause(s, d, fs[0].code)
  {
    ReceiptCodes();
    hide Found, Cause, OTHER_TASK, OTHER_SOURCE, OTHER_PERFORMER, UNTRUSTED, ISSUER;
    FoundPerformer(s, d, a);
    ReceiptCauses(s, d, a);
  }

  lemma ReceiptCodes()
    ensures OTHER_TASK.code == DispatchReceiptTaskMismatch && OTHER_SOURCE.code == DispatchReceiptSourceMismatch
    ensures OTHER_PERFORMER.code == PerformerIdentityMismatch && UNTRUSTED.code == DispatchReceiptUntrusted
  {
  }

  // ---------------------------------------------------------------- the request and what surrounds it

  predicate SurfaceFits(d: Surface) { HasVisible(d.namedCheck) && HasVisible(d.readableSurface) && Digest(d.sha256) }

  /** A request of someone else than the verdict runner: a surface of each role in two places, and nothing open. */
  predicate RequestFits(r: Request) {
    && TaskId(r.taskId) && NamedMechanism(r.performingMechanism) && r.performingMechanism != "evidence-verdict-runner"
    && r.verdictIssuingMechanism == "evidence-verdict-runner" && r.openFindings == []
    && |r.surfaces| == 2 && SurfaceFits(r.surfaces[0]) && SurfaceFits(r.surfaces[1])
    && r.surfaces[0].role != r.surfaces[1].role && r.surfaces[0].readableSurface != r.surfaces[1].readableSurface
  }

  /** Baseline, task bounds, trust, Git, source and evidence folder are all resolved. */
  predicate Resolved(ctx: Context, taskId: string) {
    && ctx.aggregateCheck.Some? && ctx.snapshotReadable
    && ctx.taskCheck(taskId).Some? && ctx.taskCheck(taskId).value != ""
    && ctx.anchorGiven && ctx.resolvedPolicyDigest.Some? && ctx.gitResolves && ctx.rootAttested
    && ctx.sourceAtStart.Some?
  }

  function Sealed(canon: Canon, body: FingerprintBody): Fingerprint {
    Fingerprint(body, canon.sha256(canon.fingerprintText(body)))
  }

  /** The source at the end is still the one at the start. */
  predicate Unmoved(canon: Canon, ctx: Context) {
    && ctx.sourceAtStart.Some? && ctx.sourceAtEnd.Some?
    && ctx.stillCurrent(Sealed(canon, ctx.sourceAtStart.value), Sealed(canon, ctx.sourceAtEnd.value))
  }

  function SettingOf(canon: Canon, ctx: Context, r: Request): Setting
    requires Resolved(ctx, r.taskId)
  {
    Setting(canon, ctx, r, Sealed(canon, ctx.sourceAtStart.value), ctx.resolvedPolicyDigest.value,
      ctx.aggregateCheck.value, ctx.taskCheck(r.taskId).value)
  }

  ghost predicate Evidence(s: Setting, d: Surface, bytes: string, a: Artifact) {
    Counts(s, d, bytes, a) && Succeeded(s.ctx, a.body)
  }

  /** Both surfaces hold evidence, under one receipt. */
  ghost predicate BothCount(s: Setting, first: Surface, second: Surface) {
    exists b1, a1, b2, a2 ::
      && Evidence(s, first, b1, a1) && Evidence(s, second, b2, a2)
      && a1.body.dispatchReceipt.receiptDigest == a2.body.dispatchReceipt.receiptDigest
  }

  // ---------------------------------------------------------------- no finding, part by part

  lemma RequestMeaning(r: Request)
    ensures RequestOk(r) <==>
      && TaskId(r.taskId) && NamedMechanism(r.performingMechanism) && r.verdictIssuingMechanism == ISSUER
      && (forall i :: 0 <= i < |r.openFindings| ==> OpenFindingOk(r.openFindings[i]))
      && (forall i :: 0 <= i < |r.surfaces| ==> SurfaceFits(r.surfaces[i]))
  {
    hide TaskId, NamedMechanism, Digest, HasVisible, Trim, ISSUER, OpenFindingOk;
    forall i | 0 <= i < |r.surfaces| ensures SurfaceOk(r.surfaces[i]) <==> SurfaceFits(r.surfaces[i]) {
      TrimLeavesVisible(r.surfaces[i].namedCheck);
      TrimLeavesVisible(r.surfaces[i].readableSurface);
    }
    hide SurfaceOk, SurfaceFits;
  }

  lemma StartMeaning(canon: Canon, ctx: Context, r: Request)
    ensures StartFindings(canon, ctx, Some(r)) == [] <==> Resolved(ctx, r.taskId)
    ensures Resolved(ctx, r.taskId) ==> Ready(canon, ctx, Some(r)) == Some(SettingOf(canon, ctx, r))
  {
    NoneOfThree(BoundsFindings(ctx, Some(r)), SourceFindings(canon, ctx), TrustFindings(ctx));
    hide BoundsFindings, SourceFindings, TrustFindings;
  }

  lemma NoneOfThree<T>(a: seq<T>, b: seq<T>, c: seq<T>)
    ensures a + b + c == [] <==> a == [] && b == [] && c == []
  {
    EmptyParts(a + b, c);
    EmptyParts(a, b);
  }

  lemma MovedMeaning(canon: Canon, ctx: Context, r: Request)
    requires Resolved(ctx, r.taskId)
    ensures SourceMoved(canon, ctx) <==> !Unmoved(canon, ctx)
  {
  }

  lemma TwoOfBothRoles(surfaces: seq<Surface>)
    ensures CardinalityFindings(surfaces) == [] <==> |surfaces| == 2 && surfaces[0].role != surfaces[1].role
  {
    if CardinalityFindings(surfaces) == [] {
      OneOfEachRole(surfaces);
    } else if |surfaces| == 2 {
      assert surfaces[..1][..0] == [] && surfaces[..1][0] == surfaces[0];
      CountedTwice(surfaces, ExistingVerification);
      CountedTwice(surfaces, TaskNamedCheck);
    }
  }

  lemma CountedTwice(surfaces: seq<Surface>, role: Role)
    requires |surfaces| == 2
    ensures RoleCount(surfaces, role)
         == (if surfaces[0].role == role then 1 else 0) + (if surfaces[1].role == role then 1 else 0)
  {
    assert surfaces[..1][..0] == [] && surfaces[..1][0] == surfaces[0];
    assert RoleCount([], role) == 0;
    assert RoleCount(surfaces[..1], role) == if surfaces[0].role == role then 1 else 0;
  }

  lemma TwoSurfaces(s: Setting, surfaces: seq<Surface>)
    requires |surfaces| == 2
    ensures LoadFindings(s, surfaces) == [] <==>
      LoadIn(s, surfaces[0]).findings == [] && LoadIn(s, surfaces[1]).findings == []
    ensures LoadIn(s, surfaces[0]).loaded.Some? && LoadIn(s, surfaces[1]).loaded.Some? ==>
      LoadedFrom(s, surfaces) == [LoadIn(s, surfaces[0]).loaded.value, LoadIn(s, surfaces[1]).loaded.value]
  {
    hide LoadIn;
    var (first, both) := (surfaces[..1], LoadFindings(s, surfaces[..1]));
    assert first[..0] == [] && first[0] == surfaces[0];
    assert LoadFindings(s, []) == [] && LoadedFrom(s, []) == [];
    assert both == [] + LoadIn(s, surfaces[0]).findings;
    EmptyParts(both, LoadIn(s, surfaces[1]).findings);
  }

  /** Two checks in two places, by one performer and under one receipt. */
  lemma TwoLoadedCounts(loaded: seq<Loaded>)
    requires |loaded| == 2
    ensures Count(Surfaces(loaded)) == 2 <==>
      loaded[0].descriptor.readableSurface != loaded[1].descriptor.readableSurface
    ensures var (r, r') := (loaded[0].artifact.dispatchReceipt, loaded[1].artifact.dispatchReceipt);
      && (Count(Performers(loaded)) == 1 <==> r.body.performingMechanism == r'.body.performingMechanism)
      && (Count(Receipts(loaded)) == 1 <==> r.receiptDigest == r'.receiptDigest)
  {
    CountTwo(Surfaces(loaded));
    CountTwo(Performers(loaded));
    CountTwo(Receipts(loaded));
    hide Count;
  }

  lemma CountTwo<T>(xs: seq<T>)
    requires |xs| == 2
    ensures Count(xs) == if xs[0] == xs[1] then 1 else 2
  {
    assert (set x | x in xs) == {xs[0], xs[1]};
    if xs[0] == xs[1] { assert {xs[0], xs[1]} == {xs[0]}; }
  }

  /** What is judged at the end, for two loaded checks of one performer. */
  lemma EndMeaning(canon: Canon, ctx: Context, r: Request, loaded: seq<Loaded>)
    requires |loaded| == 2 && NamedMechanism(r.performingMechanism) && r.verdictIssuingMechanism == ISSUER
    requires forall i :: 0 <= i < 2 ==>
      loaded[i].artifact.dispatchReceipt.body.performingMechanism == r.performingMechanism
    ensures EndFindings(canon, ctx, Some(r), loaded) == [] <==>
      && loaded[0].descriptor.readableSurface != loaded[1].descriptor.readableSurface
      && loaded[0].artifact.dispatchReceipt.receiptDigest == loaded[1].artifact.dispatchReceipt.receiptDigest
      && r.performingMechanism != ISSUER && !SourceMoved(canon, ctx)
  {
    TwoLoadedCounts(loaded);
    PerformerIsVisible(r);
    assert Performers(loaded)[0] == r.performingMechanism;
    hide Count, SourceMoved, Blank, ISSUER, NamedMechanism;
  }

  lemma PerformerIsVisible(r: Request)
    requires NamedMechanism(r.performingMechanism)
    ensures !Blank(r.performingMechanism) && !Blank(ISSUER)
  {
    var p := r.performingMechanism;
    assert !IsSpace(p[0]);
    StartsVisibly(p);
    StartsVisibly(ISSUER);
  }

  lemma NothingOpenMeans(s: Setting)
    ensures RequestFindings(s) == [] <==> s.request.openFindings == []
  {
    if RequestFindings(s) == [] { NothingOpen(s); }
  }

  // ---------------------------------------------------------------- verified exactly

  lemma AllParts(canon: Canon, ctx: Context, r: Request)
    requires RequestOk(r)
    ensures AllFindings(canon, ctx, Some(r)) == [] <==>
      && StartFindings(canon, ctx, Some(r)) == [] && SurfaceFindings(canon, ctx, Some(r)) == []
      && EndFindings(canon, ctx, Some(r), LoadedSurfaces(canon, ctx, Some(r))) == []
  {
    hide *;
    var (st, su, e) := (StartFindings(canon, ctx, Some(r)), SurfaceFindings(canon, ctx, Some(r)),
      EndFindings(canon, ctx, Some(r), LoadedSurfaces(canon, ctx, Some(r))));
    FindingsInOrder(canon, ctx, r);
    EmptyParts([] + st + su, e);
    EmptyParts([] + st, su);
    EmptyParts([], st);
  }

  lemma FindingsInOrder(canon: Canon, ctx: Context, r: Request)
    requires RequestOk(r)
    ensures AllFindings(canon, ctx, Some(r))
         == [] + StartFindings(canon, ctx, Some(r)) + SurfaceFindings(canon, ctx, Some(r))
            + EndFindings(canon, ctx, Some(r), LoadedSurfaces(canon, ctx, Some(r)))
  {
    RequestIsParsed(r);
    hide RequestOk, ParseFindings, ParsedRequest, StartFindings, SurfaceFindings, EndFindings, LoadedSurfaces;
  }

  lemma RequestIsParsed(r: Request)
    requires RequestOk(r)
    ensures ParseFindings(Some(r)) == [] && ParsedRequest(Some(r)) == Some(r)
  {
    assert FieldsOk(r);
    hide RequestOk, FieldsOk;
  }

  lemma BadRequest(canon: Canon, ctx: Context, value: Option<Request>)
    requires value.None? || !RequestOk(value.value)
    ensures AllFindings(canon, ctx, value) != []
  {
    hide RequestOk, FieldsOk, StartFindings, SurfaceFindings, EndFindings, LoadedSurfaces;
    var request := ParsedRequest(value);
    var (p, st, su, e) := (ParseFindings(value), StartFindings(canon, ctx, request),
      SurfaceFindings(canon, ctx, request), EndFindings(canon, ctx, request, LoadedSurfaces(canon, ctx, request)));
    assert |p| == 1;
    hide ParseFindings;
    assert |p + st + su + e| == |p| + |st| + |su| + |e|;
  }

  lemma SurfaceMeaning(canon: Canon, ctx: Context, r: Request)
    requires Resolved(ctx, r.taskId)
    ensures var s := SettingOf(canon, ctx, r);
      && LoadedSurfaces(canon, ctx, Some(r)) == LoadedFrom(s, r.surfaces)
      && (SurfaceFindings(canon, ctx, Some(r)) == [] <==>
            CardinalityFindings(r.surfaces) == [] && LoadFindings(s, r.surfaces) == [] && r.openFindings == [])
  {
    hide *;
    SurfacesInOrder(canon, ctx, r);
    SettingRequest(canon, ctx, r);
    var s := SettingOf(canon, ctx, r);
    NothingOpenMeans(s);
    NoneOfThree(CardinalityFindings(r.surfaces), LoadFindings(s, r.surfaces), RequestFindings(s));
  }

  lemma SurfacesInOrder(canon: Canon, ctx: Context, r: Request)
    requires Resolved(ctx, r.taskId)
    ensures var s := SettingOf(canon, ctx, r);
      && LoadedSurfaces(canon, ctx, Some(r)) == LoadedFrom(s, r.surfaces)
      && SurfaceFindings(canon, ctx, Some(r))
         == CardinalityFindings(r.surfaces) + LoadFindings(s, r.surfaces) + RequestFindings(s)
  {
    hide Resolved, Ready, CardinalityFindings, LoadFindings, RequestFindings, LoadedFrom, StartFindings;
    StartMeaning(canon, ctx, r);
  }

  /** The two loaded checks, and what is left to judge about them. */
  lemma EndOfTwo(canon: Canon, ctx: Context, r: Request, b1: string, a1: Artifact, b2: string, a2: Artifact)
    requires RequestOk(r) && Resolved(ctx, r.taskId) && |r.surfaces| == 2
    requires Evidence(SettingOf(canon, ctx, r), r.surfaces[0], b1, a1)
    requires Evidence(SettingOf(canon, ctx, r), r.surfaces[1], b2, a2)
    ensures EndFindings(canon, ctx, Some(r), LoadedFrom(SettingOf(canon, ctx, r), r.surfaces)) == [] <==>
      && r.surfaces[0].readableSurface != r.surfaces[1].readableSurface
      && a1.body.dispatchReceipt.receiptDigest == a2.body.dispatchReceipt.receiptDigest
      && r.performingMechanism != ISSUER && Unmoved(canon, ctx)
  {
    hide *;
    var s := SettingOf(canon, ctx, r);
    RequestMeaning(r);
    SettingRequest(canon, ctx, r);
    MovedMeaning(canon, ctx, r);
    EvidenceIsLoaded(s, r.surfaces[0], b1, a1);
    EvidenceIsLoaded(s, r.surfaces[1], b2, a2);
    TwoSurfaces(s, r.surfaces);
    EndMeaning(canon, ctx, r, LoadedFrom(s, r.surfaces));
  }

  lemma EvidenceIsLoaded(s: Setting, d: Surface, bytes: string, a: Artifact)
    requires Evidence(s, d, bytes, a)
    ensures LoadIn(s, d).loaded == Some(Loaded(d, a.body, ResultOf(s, d, a.body)))
    ensures a.body.dispatchReceipt.body.performingMechanism == s.request.performingMechanism
  {
    CountsPerformer(s, d, bytes, a);
    hide Counts, Succeeded, LoadIn, ResultOf;
    LoadedExactly(s, d);
  }

  lemma CountsPerformer(s: Setting, d: Surface, bytes: string, a: Artifact)
    requires Counts(s, d, bytes, a)
    ensures a.body.dispatchReceipt.body.performingMechanism == s.request.performingMechanism
  {
  }

  /** A file holds one artifact. */
  lemma OneArtifact(s: Setting, d: Surface, b1: string, a1: Artifact, b2: string, a2: Artifact)
    requires Counts(s, d, b1, a1) && Counts(s, d, b2, a2)
    ensures b1 == b2 && a1 == a2
  {
  }

  lemma LoadedTwice(s: Setting)
    requires |s.request.surfaces| == 2
    ensures LoadFindings(s, s.request.surfaces) == [] <==>
      && (exists b1, a1 :: Evidence(s, s.request.surfaces[0], b1, a1))
      && (exists b2, a2 :: Evidence(s, s.request.surfaces[1], b2, a2))
  {
    var (d, e) := (s.request.surfaces[0], s.request.surfaces[1]);
    hide Counts, Succeeded, LoadIn, LoadFindings;
    TwoSurfaces(s, s.request.surfaces);
    FindingsMean(s, d);
    FindingsMean(s, e);
  }

  lemma FindingsMean(s: Setting, d: Surface)
    ensures LoadIn(s, d).findings == [] <==> exists b, a :: Evidence(s, d, b, a)
  {
    LoadedExactly(s, d);
    hide Counts, Succeeded, LoadIn;
    if LoadIn(s, d).findings == [] {
      var b, a :| Counts(s, d, b, a) && Succeeded(s.ctx, a.body);
      assert Evidence(s, d, b, a);
    }
  }

  lemma CleanExactly(canon: Canon, ctx: Context, r: Request)
    requires RequestOk(r) && Resolved(ctx, r.taskId) && |r.surfaces| == 2 && r.surfaces[0].role != r.surfaces[1].role
    ensures AllFindings(canon, ctx, Some(r)) == [] <==>
      && r.openFindings == [] && r.surfaces[0].readableSurface != r.surfaces[1].readableSurface
      && r.performingMechanism != ISSUER && Unmoved(canon, ctx)
      && BothCount(SettingOf(canon, ctx, r), r.surfaces[0], r.surfaces[1])
  {
    hide *;
    var s := SettingOf(canon, ctx, r);
    AllParts(canon, ctx, r);
    StartMeaning(canon, ctx, r);
    SurfaceMeaning(canon, ctx, r);
    TwoOfBothRoles(r.surfaces);
    SettingRequest(canon, ctx, r);
    LoadedTwice(s);
    if LoadFindings(s, r.surfaces) == [] {
      var b1, a1 :| Evidence(s, r.surfaces[0], b1, a1);
      var b2, a2 :| Evidence(s, r.surfaces[1], b2, a2);
      EndOfTwo(canon, ctx, r, b1, a1, b2, a2);
      BothCountMeans(s, r.surfaces[0], r.surfaces[1], b1, a1, b2, a2);
    } else {
      BothCountNeeds(s, r.surfaces[0], r.surfaces[1]);
    }
  }

  lemma BothCountNeeds(s: Setting, d: Surface, e: Surface)
    ensures BothCount(s, d, e) ==>
      (exists b1, a1 :: Evidence(s, d, b1, a1)) && (exists b2, a2 :: Evidence(s, e, b2, a2))
  {
    hide Evidence;
  }

  lemma SettingRequest(canon: Canon, ctx: Context, r: Request)
    requires Resolved(ctx, r.taskId)
    ensures SettingOf(canon, ctx, r).request == r
  {
  }

  lemma BothCountMeans(s: Setting, d: Surface, e: Surface, b1: string, a1: Artifact, b2: string, a2: Artifact)
    requires Evidence(s, d, b1, a1) && Evidence(s, e, b2, a2)
    ensures BothCount(s, d, e) <==> a1.body.dispatchReceipt.receiptDigest == a2.body.dispatchReceipt.receiptDigest
  {
    hide Counts, Succeeded;
    if BothCount(s, d, e) {
      var x1, y1, x2, y2 :|
        && Evidence(s, d, x1, y1) && Evidence(s, e, x2, y2)
        && y1.body.dispatchReceipt.receiptDigest == y2.body.dispatchReceipt.receiptDigest;
      OneArtifact(s, d, x1, y1, b1, a1);
      OneArtifact(s, e, x2, y2, b2, a2);
    }
  }

  /** The request fits, everything it is judged by is resolved, the source has not moved, and both surfaces count. */
  ghost predicate Deserved(canon: Canon, ctx: Context, value: Option<Request>) {
    && value.Some? && RequestFits(value.value) && Resolved(ctx, value.value.taskId) && Unmoved(canon, ctx)
    && BothCount(SettingOf(canon, ctx, value.value), value.value.surfaces[0], value.value.surfaces[1])
  }

  /**
   A verdict is verified exactly when the request fits, everything it is judged by is resolved, the source has not
   moved, and the two surfaces hold evidence under one receipt.
   */
  lemma VerifiedExactly(canon: Canon, ctx: Context, value: Option<Request>)
    ensures VerdictOf(canon, ctx, value).status.Verified? <==> Deserved(canon, ctx, value)
  {
    hide VerdictOf, AllFindings, Resolved, Unmoved, BothCount, TaskId, NamedMechanism, SurfaceFits, OpenFindingOk,
      RequestOk, CardinalityFindings, StartFindings, SurfaceFindings, EndFindings, LoadedSurfaces, SettingOf,
      LoadFindings;
    VerifiedExactlyWithoutFindings(canon, ctx, value);
    IssuerName();
    hide ISSUER;
    if value.None? || !RequestOk(value.value) {
      BadRequest(canon, ctx, value);
      if value.Some? { RequestMeaning(value.value); }
    } else {
      var r := value.value;
      RequestMeaning(r);
      AllParts(canon, ctx, r);
      StartMeaning(canon, ctx, r);
      TwoOfBothRoles(r.surfaces);
      if Resolved(ctx, r.taskId) {
        SurfaceMeaning(canon, ctx, r);
        if CardinalityFindings(r.surfaces) == [] { CleanExactly(canon, ctx, r); }
      }
    }
  }
}
