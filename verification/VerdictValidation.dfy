/** What is written for later readers, the validator they use, and why the two agree. */
module VerdictValidation {
  import opened EvidenceContracts
  import opened EvidenceVerdicts
  import opened Options
  import opened Sorting
  import opened Texts

  // ---------------------------------------------------------------- the validator

  predicate ReferenceOk(r: Reference) {
    !Blank(r.namedCheck) && !Blank(r.recordedResult) && !Blank(r.readableSurface) && Digest(r.artifactSha256)
  }

  predicate VerifiedOk(canon: Canon, b: VerdictBody) {
    |b.findings| == 0 && |b.references| == 2 && !b.rung.blocked && b.derivedFromSurfacedOutput
    && b.dispatchReceiptDigest != canon.sha256(UNRESOLVED_RECEIPT)
    && b.dispatchTrustPolicyDigest != canon.sha256(UNRESOLVED_POLICY)
  }

  predicate FailedOk(b: VerdictBody) { |b.findings| > 0 && b.rung.blocked }

  /** The independent check of a stored verdict: it recomputes the digest and looks at every field. */
  predicate ValidatePersistedVerdict(canon: Canon, v: Verdict) {
    var b := v.body;
    && TaskId(b.taskId) && NamedMechanism(b.performingMechanism) && NamedMechanism(b.verdictIssuingMechanism)
    && b.sourceFingerprint.Some? && ValidFingerprint(canon, b.sourceFingerprint.value)
    && Digest(b.dispatchReceiptDigest) && Digest(b.dispatchTrustPolicyDigest)
    && Digest(b.evidenceDigest) && Digest(v.verdictDigest)
    && (forall i :: 0 <= i < |b.references| ==> ReferenceOk(b.references[i]))
    && (forall i :: 0 <= i < |b.findings| ==> !Blank(b.findings[i].detail))
    && canon.sha256(canon.verdictText(b)) == v.verdictDigest
    && (if b.status.Verified? then VerifiedOk(canon, b) else FailedOk(b))
  }

  // ---------------------------------------------------------------- what is written

  predicate Persistable(canon: Canon, b: VerdictBody) {
    b.sourceFingerprint.Some? && b.taskId != UNRESOLVED
      && b.dispatchTrustPolicyDigest != canon.sha256(UNRESOLVED_POLICY)
  }

  /** Evaluates and stores the verdict, unless it could not be tied to a source, a task and a trust policy. */
  method RunEvidenceVerdict(canon: Canon, ctx: Context, value: Option<Request>, baselineReadable: bool,
      sinkAttested: bool)
    returns (verdict: Verdict, persisted: bool)
    requires canon.Sound() && FactsOk(ctx)
    ensures verdict == SealVerdict(canon, VerdictOf(canon, ctx, value))
    ensures persisted <==> baselineReadable && sinkAttested && Persistable(canon, verdict.body)
    ensures persisted ==> ValidatePersistedVerdict(canon, verdict)
  {
    verdict := EvaluateEvidenceRequest(canon, ctx, value);
    hide VerdictOf, ValidatePersistedVerdict;
    if !baselineReadable || !Persistable(canon, verdict.body) || !sinkAttested { return verdict, false; }
    PersistedVerdictIsValid(canon, ctx, value);
    persisted := true;
  }

  /** What reading the trust anchor and fingerprinting the source guarantee about their results. */
  ghost predicate FactsOk(ctx: Context) {
    && (ctx.resolvedPolicyDigest.Some? ==> Digest(ctx.resolvedPolicyDigest.value))
    && (ctx.sourceAtStart.Some? ==> BodyOk(ctx.sourceAtStart.value))
  }

  predicate BodyOk(f: FingerprintBody) {
    HexBetween(f.implementationBaseline, 40, 40) && HexBetween(f.headRevision, 40, 64)
    && 0 <= f.authoredFileCount <= 9007199254740991 && Digest(f.authoredTreeSha256)
  }

  // ---------------------------------------------------------------- surfaces that were loaded

  /** A loaded surface and the artifact behind it. */
  ghost predicate LoadedOk(s: Setting, d: Surface, l: Loaded) {
    && l.descriptor == d && Backed(s, d, l.artifact)
    && l.result.namedCheck == l.artifact.namedCheck == d.namedCheck && l.result.readableSurface == d.readableSurface
    && l.result.ran == l.artifact.ran && l.result.passed == Passed(s.ctx, l.artifact)
    && l.result.recordedResult == s.canon.summaryText(l.artifact)
  }

  function ExpectedCheck(s: Setting, role: Role): string {
    if role.ExistingVerification? then s.existingVerification else s.taskNamedCheck
  }

  /**
   The bytes at a surface have the stated digest and hold this artifact, with its own digest and signatures in order.
   */
  ghost predicate Holds(s: Setting, d: Surface, a: ArtifactBody) {
    var file := s.ctx.file(d.readableSurface);
    && file.Contents? && file.artifact.Some? && file.artifact.value.body == a
    && s.canon.sha256(file.bytes) == d.sha256 && ArtifactOk(s.canon, s.ctx, file.artifact.value)
  }

  /** The artifact of a surface is the expected one, current, under the right policy and with a trusted receipt. */
  ghost predicate Backed(s: Setting, d: Surface, a: ArtifactBody) {
    && d.namedCheck == a.namedCheck == ExpectedCheck(s, d.role) && Holds(s, d, a)
    && s.ctx.stillCurrent(a.sourceFingerprint, s.source) && a.sourceStable
    && a.dispatchTrustPolicyDigest == s.policyDigest
    && ReceiptFindings(s.ctx, a.dispatchReceipt, s.request.taskId, a.sourceFingerprint, s.request.performingMechanism)
      == []
    && !a.outputTruncated && !(Blank(a.stdout) && Blank(a.stderr))
  }

  lemma NoFaultMeansBacked(s: Setting, d: Surface, a: ArtifactBody)
    requires Holds(s, d, a) && d.namedCheck == ExpectedCheck(s, d.role)
    requires ArtifactFault(s.ctx, d, a, ExpectedCheck(s, d.role), s.request.taskId, s.request.performingMechanism,
      s.source, s.policyDigest) == None
    ensures Backed(s, d, a) && d.namedCheck == a.namedCheck
  {
    hide ReceiptFindings, ExpectedCheck, Blank, Holds;
  }

  lemma LoadArtifactFacts(s: Setting, d: Surface, a: ArtifactBody)
    requires Holds(s, d, a) && d.namedCheck == ExpectedCheck(s, d.role)
    ensures var o := LoadArtifact(s.canon, s.ctx, d, a, ExpectedCheck(s, d.role), s.request.taskId,
        s.request.performingMechanism, s.source, s.policyDigest);
      && AllVisible(o.findings)
      && (o.loaded.Some? ==> LoadedOk(s, d, o.loaded.value))
      && (o.findings == [] <==> o.loaded.Some? && o.loaded.value.result.ran && o.loaded.value.result.passed)
  {
    hide ArtifactFault, Passed, ExpectedCheck, Visible, AboutSurface, Holds, FailedLoad, Backed;
    var fault := ArtifactFault(s.ctx, d, a, ExpectedCheck(s, d.role), s.request.taskId, s.request.performingMechanism,
      s.source, s.policyDigest);
    if fault.None? { NoFaultMeansBacked(s, d, a); }
  }

  /**
   One surface: whatever is loaded is backed, and it loads without a finding exactly when its check ran and passed.
   */
  lemma LoadFacts(s: Setting, d: Surface)
    ensures var o := LoadIn(s, d);
      && AllVisible(o.findings)
      && (o.loaded.Some? ==> LoadedOk(s, d, o.loaded.value))
      && (o.findings == [] <==> o.loaded.Some? && o.loaded.value.result.ran && o.loaded.value.result.passed)
  {
    hide ArtifactOk, LoadArtifact, Visible, LoadedOk, AboutSurface, FailedLoad, AllVisible;
    var file := s.ctx.file(d.readableSurface);
    if d.namedCheck == ExpectedCheck(s, d.role) && file.Contents? && s.canon.sha256(file.bytes) == d.sha256
       && file.artifact.Some? && ArtifactOk(s.canon, s.ctx, file.artifact.value) {
      LoadArtifactFacts(s, d, file.artifact.value.body);
    }
  }

  // ---------------------------------------------------------------- all surfaces of a request

  /** Everything loaded from the surfaces is backed by one of them. */
  lemma {:induction false} LoadedFacts(s: Setting, surfaces: seq<Surface>, i: nat)
    requires i < |LoadedFrom(s, surfaces)|
    ensures LoadedFrom(s, surfaces)[i].descriptor in surfaces
    ensures LoadedOk(s, LoadedFrom(s, surfaces)[i].descriptor, LoadedFrom(s, surfaces)[i])
    decreases |surfaces|
  {
    hide LoadIn, LoadedOk;
    var n := |surfaces| - 1;
    var init := LoadedFrom(s, surfaces[..n]);
    LoadFacts(s, surfaces[n]);
    LoadedDescriptor(s, surfaces[n]);
    if i < |init| {
      LoadedFacts(s, surfaces[..n], i);
      assert LoadedFrom(s, surfaces)[i] == init[i];
    }
  }

  lemma LoadedDescriptor(s: Setting, d: Surface)
    ensures LoadIn(s, d).loaded.Some? ==> LoadIn(s, d).loaded.value.descriptor == d
  {
    LoadFacts(s, d);
    hide LoadIn, Backed;
  }

  lemma {:induction false} LoadFindingsAreVisible(s: Setting, surfaces: seq<Surface>)
    ensures AllVisible(LoadFindings(s, surfaces))
  {
    if surfaces != [] {
      LoadFindingsAreVisible(s, surfaces[..|surfaces| - 1]);
      LoadFacts(s, surfaces[|surfaces| - 1]);
      hide LoadIn, Visible;
    }
  }

  /** Without findings every surface was loaded, in its place, and its check ran and passed. */
  lemma {:induction false} AllLoaded(s: Setting, surfaces: seq<Surface>)
    requires LoadFindings(s, surfaces) == []
    ensures |LoadedFrom(s, surfaces)| == |surfaces|
    ensures forall i :: 0 <= i < |surfaces| ==> LoadedInPlace(LoadedFrom(s, surfaces)[i], surfaces[i])
    decreases |surfaces|
  {
    hide LoadIn, LoadedOk;
    if surfaces != [] {
      var n := |surfaces| - 1;
      assert LoadFindings(s, surfaces[..n]) == [] && LoadIn(s, surfaces[n]).findings == [] by {
        EmptyParts(LoadFindings(s, surfaces[..n]), LoadIn(s, surfaces[n]).findings);
      }
      AllLoaded(s, surfaces[..n]);
      LoadFacts(s, surfaces[n]);
      LoadedDescriptor(s, surfaces[n]);
      forall i | 0 <= i < |surfaces| ensures LoadedInPlace(LoadedFrom(s, surfaces)[i], surfaces[i]) {
        if i < n { assert surfaces[..n][i] == surfaces[i]; }
      }
    }
  }

  ghost predicate LoadedInPlace(l: Loaded, d: Surface) { l.descriptor == d && l.result.ran && l.result.passed }

  lemma EmptyParts<T>(a: seq<T>, b: seq<T>)
    ensures a + b == [] <==> a == [] && b == []
  {
    assert |a + b| == |a| + |b|;
  }

  lemma {:induction false} OpenFindingsAreVisible(entries: seq<string>)
    ensures AllVisible(OpenFindings(entries))
  {
    if entries != [] {
      OpenFindingsAreVisible(entries[..|entries| - 1]);
      var f := OpenFinding(entries[|entries| - 1]);
      assert f.detail[0] == 'o' && !IsSpace(f.detail[0]);
    }
  }

  lemma VisibleParts(a: seq<Finding>, b: seq<Finding>)
    requires AllVisible(a) && AllVisible(b)
    ensures AllVisible(a + b)
  {
  }

  lemma NothingIsVisible()
    ensures AllVisible([])
  {
  }

  lemma SurfaceFindingsAreVisible(canon: Canon, ctx: Context, request: Option<Request>)
    ensures AllVisible(SurfaceFindings(canon, ctx, request))
  {
    hide CardinalityFindings, LoadFindings, OpenFindings, NormalizedFindings, AllVisible;
    NothingIsVisible();
    if Ready(canon, ctx, request).Some? {
      var s := Ready(canon, ctx, request).value;
      LoadFindingsAreVisible(s, s.request.surfaces);
      OpenFindingsAreVisible(NormalizedFindings(s.ctx, s.request.openFindings));
      VisibleParts(CardinalityFindings(s.request.surfaces), LoadFindings(s, s.request.surfaces));
      VisibleParts(CardinalityFindings(s.request.surfaces) + LoadFindings(s, s.request.surfaces), RequestFindings(s));
    }
  }

  lemma FindingsAreVisible(canon: Canon, ctx: Context, value: Option<Request>)
    ensures AllVisible(AllFindings(canon, ctx, value))
  {
    hide ParseFindings, StartFindings, SurfaceFindings, EndFindings, LoadedSurfaces, ParsedRequest, AllVisible;
    var request := ParsedRequest(value);
    SurfaceFindingsAreVisible(canon, ctx, request);
    VisibleParts(ParseFindings(value), StartFindings(canon, ctx, request));
    VisibleParts(ParseFindings(value) + StartFindings(canon, ctx, request), SurfaceFindings(canon, ctx, request));
    VisibleParts(ParseFindings(value) + StartFindings(canon, ctx, request) + SurfaceFindings(canon, ctx, request),
      EndFindings(canon, ctx, request, LoadedSurfaces(canon, ctx, request)));
  }

  /** The open findings of a request are reported trimmed, each text once, in order, and none is lost. */
  lemma NormalizedMeaning(ctx: Context, entries: seq<string>, text: string)
    ensures text in NormalizedFindings(ctx, entries) <==> exists i :: 0 <= i < |entries| && text == Trim(entries[i])
    ensures text in NormalizedFindings(ctx, entries) ==> NoOuterSpace(text)
    ensures Distinct(NormalizedFindings(ctx, entries))
    ensures TotalOrder(ctx.textOrder) ==> SortedBy(ctx.textOrder, NormalizedFindings(ctx, entries))
  {
    var trimmed := Trimmed(entries);
    UniqueKeepsElements(trimmed, text);
    UniqueIsDistinct(trimmed);
    SameElements(NormalizedFindings(ctx, entries), Unique(trimmed));
    DistinctByMultiset(Unique(trimmed), NormalizedFindings(ctx, entries));
    if TotalOrder(ctx.textOrder) { SortBySorts(ctx.textOrder, Unique(trimmed)); }
    hide Trim, Unique, SortBy;
    if i :| 0 <= i < |entries| && text == Trim(entries[i]) {
      assert trimmed[i] == text;
      TrimRemovesOuterSpace(entries[i]);
    }
  }

  lemma NothingOpen(s: Setting)
    requires RequestFindings(s) == []
    ensures s.request.openFindings == []
  {
    var entries := s.request.openFindings;
    if entries != [] { NormalizedMeaning(s.ctx, entries, Trim(entries[0])); }
  }

  /** Sorting without repetitions keeps which findings there are. */
  lemma SameFindings(ctx: Context, findings: seq<Finding>, f: Finding)
    ensures f in UniqueSortedFindings(ctx, findings) <==> f in findings
  {
    UniqueKeepsElements(findings, f);
    SameElements(UniqueSortedFindings(ctx, findings), Unique(findings));
  }

  /** The reported findings are those gathered, each once, in order. */
  lemma FindingsAreSortedOnce(ctx: Context, findings: seq<Finding>)
    requires TotalOrder(ctx.findingOrder)
    ensures SortedBy(ctx.findingOrder, UniqueSortedFindings(ctx, findings))
    ensures Distinct(UniqueSortedFindings(ctx, findings))
  {
    SortBySorts(ctx.findingOrder, Unique(findings));
    UniqueIsDistinct(findings);
    DistinctByMultiset(Unique(findings), UniqueSortedFindings(ctx, findings));
  }

  lemma NoFindingsReported(ctx: Context, findings: seq<Finding>)
    ensures UniqueSortedFindings(ctx, findings) == [] <==> findings == []
  {
    if findings != [] {
      SameFindings(ctx, findings, findings[0]);
    } else {
      assert Unique(findings) == [];
    }
  }

  // ---------------------------------------------------------------- counting values

  lemma CountOfOne<T>(xs: seq<T>, i: nat)
    requires Count(xs) == 1 && i < |xs|
    ensures xs[i] == xs[0]
  {
    var all := set x | x in xs;
    assert xs[0] in all && xs[i] in all;
    assert |all - {xs[0]}| == 0;
    assert all == {xs[0]};
  }

  lemma CountOfTwo<T>(xs: seq<T>)
    requires Count(xs) == 2 && |xs| == 2
    ensures xs[0] != xs[1]
  {
    var a, b := xs[0], xs[1];
    assert (set x | x in xs) == {a, b};
    assert a == b ==> {a, b} == {a};
  }

  // ---------------------------------------------------------------- references

  lemma {:induction false} AllEmitted(results: seq<CheckResult>)
    requires forall i :: 0 <= i < |results| ==> results[i].ran && results[i].passed
    ensures EmitReferences(results) == results
  {
    if results != [] {
      AllEmitted(results[..|results| - 1]);
    }
  }

  /**
   Every reference reports a loaded check that ran and passed, under the role and digest of a surface that matches
   it.
   */
  lemma ReferencesComeFromSurfaces(loaded: seq<Loaded>, i: nat) returns (k: nat, m: nat)
    requires i < |BuildReferences(loaded)|
    ensures k < |loaded| && m < |loaded| && Matches(loaded[k], loaded[m].result)
    ensures loaded[m].result.ran && loaded[m].result.passed
    ensures var r := loaded[m].result;
      BuildReferences(loaded)[i]
        == Reference(loaded[k].descriptor.role, r.namedCheck, r.recordedResult, r.readableSurface,
          loaded[k].descriptor.sha256)
  {
    var emitted := EmitReferences(Results(loaded));
    forall j | 0 <= j < |emitted| ensures exists n :: 0 <= n < |loaded| && Matches(loaded[n], emitted[j]) {
      EmittedPassed(loaded, emitted[j]);
    }
    var unsorted := seq(|emitted|, j requires 0 <= j < |emitted| => ReferenceFor(loaded, emitted[j]));
    SameElements(BuildReferences(loaded), unsorted);
    assert BuildReferences(loaded)[i] in unsorted;
    var j :| 0 <= j < |unsorted| && unsorted[j] == BuildReferences(loaded)[i];
    EmittedPassed(loaded, emitted[j]);
    m :| 0 <= m < |loaded| && loaded[m].result == emitted[j] && Matches(loaded[m], emitted[j]);
    k :| 0 <= k < |loaded| && loaded[k] == SourceOf(loaded, emitted[j]);
  }

  /** Two passed checks on distinct surfaces give their two references, the aggregate check first. */
  lemma TwoReferences(loaded: seq<Loaded>)
    requires |loaded| == 2 && loaded[0].result.readableSurface != loaded[1].result.readableSurface
    requires forall i :: 0 <= i < 2 ==> loaded[i].result.ran && loaded[i].result.passed
    ensures |BuildReferences(loaded)| == 2
    ensures loaded[0].descriptor.role.ExistingVerification? && loaded[1].descriptor.role.TaskNamedCheck? ==>
      BuildReferences(loaded) == [ReferenceOf(loaded[0]), ReferenceOf(loaded[1])]
    ensures loaded[1].descriptor.role.ExistingVerification? && loaded[0].descriptor.role.TaskNamedCheck? ==>
      BuildReferences(loaded) == [ReferenceOf(loaded[1]), ReferenceOf(loaded[0])]
  {
    UnsortedReferences(loaded);
    SortOfTwo(ReferenceOf(loaded[0]), ReferenceOf(loaded[1]));
    hide SortBy;
  }

  lemma UnsortedReferences(loaded: seq<Loaded>)
    requires |loaded| == 2 && loaded[0].result.readableSurface != loaded[1].result.readableSurface
    requires forall i :: 0 <= i < 2 ==> loaded[i].result.ran && loaded[i].result.passed
    ensures BuildReferences(loaded) == SortBy(RoleOrder, [ReferenceOf(loaded[0]), ReferenceOf(loaded[1])])
  {
    AllEmitted(Results(loaded));
    hide SortBy, EmitReferences;
    var emitted := Results(loaded);
    assert Matches(loaded[0], emitted[0]) && Matches(loaded[1], emitted[1]);
    assert SourceOf(loaded, emitted[0]) == loaded[0];
    assert SourceOf(loaded, emitted[1]) == loaded[1];
    assert seq(|emitted|, j requires 0 <= j < |emitted| => ReferenceFor(loaded, emitted[j]))
      == [ReferenceOf(loaded[0]), ReferenceOf(loaded[1])];
  }

  lemma SortOfTwo(a: Reference, b: Reference)
    ensures |SortBy(RoleOrder, [a, b])| == 2
    ensures SortBy(RoleOrder, [a, b]) == if RoleOrder(a, b) then [a, b] else [b, a]
  {
    assert [a, b][..1] == [a] && [a][..0] == [];
    assert SortBy(RoleOrder, [a]) == [a];
    assert Insert(RoleOrder, b, [a]) == if RoleOrder(a, b) then [a, b] else [b, a];
    hide Insert;
  }

  function ReferenceOf(l: Loaded): Reference {
    Reference(l.descriptor.role, l.result.namedCheck, l.result.recordedResult, l.result.readableSurface,
      l.descriptor.sha256)
  }

  // ---------------------------------------------------------------- verified means no findings

  lemma {:induction false} RolesAddUp(surfaces: seq<Surface>)
    ensures RoleCount(surfaces, ExistingVerification) + RoleCount(surfaces, TaskNamedCheck) == |surfaces|
  {
    if surfaces != [] { RolesAddUp(surfaces[..|surfaces| - 1]); }
  }

  lemma OneOfEachRole(surfaces: seq<Surface>)
    requires CardinalityFindings(surfaces) == []
    ensures |surfaces| == 2 && surfaces[0].role != surfaces[1].role
  {
    RolesAddUp(surfaces);
    assert RoleCount(surfaces, ExistingVerification) == 1 && RoleCount(surfaces, TaskNamedCheck) == 1;
    assert surfaces[..1][..0] == [] && surfaces[..1][0] == surfaces[0];
    assert RoleCount(surfaces[..1], ExistingVerification) == if surfaces[0].role.ExistingVerification? then 1 else 0;
  }

  /** What no finding at all says about an evaluation. */
  lemma CleanEvaluation(canon: Canon, ctx: Context, value: Option<Request>) returns (s: Setting, loaded: seq<Loaded>)
    requires AllFindings(canon, ctx, value) == []
    ensures value.Some? && RequestOk(value.value) && Ready(canon, ctx, value) == Some(s) && s.request == value.value
    ensures loaded == LoadedFrom(s, s.request.surfaces) == LoadedSurfaces(canon, ctx, value)
    ensures CardinalityFindings(s.request.surfaces) == [] && LoadFindings(s, s.request.surfaces) == []
    ensures RequestFindings(s) == []
    ensures Derived(value, loaded) && !SelfGraded(OnlyOne(Performers(loaded), UNRESOLVED), Issuing(value), true)
    ensures !SourceMoved(canon, ctx) && TaskCheck(ctx, value).Some?
  {
    hide RequestOk, FieldsOk, LoadedFrom, LoadFindings, RequestFindings, CardinalityFindings, Derived, Count, TaskCheck,
      SourceMoved, RootAttested, LoadedFindings, Ready, ParseFindings, StartFindings, EndFindings, SelfGraded, OnlyOne;
    var request := ParsedRequest(value);
    loaded := LoadedSurfaces(canon, ctx, request);
    var (p, st, su, e) := (ParseFindings(value), StartFindings(canon, ctx, request),
      SurfaceFindings(canon, ctx, request),
      EndFindings(canon, ctx, request, loaded));
    EmptyParts(p + st + su, e);
    EmptyParts(p + st, su);
    EmptyParts(p, st);
    ParsedWithoutFindings(value);
    StartWithoutFindings(canon, ctx, request);
    s := Ready(canon, ctx, request).value;
    EmptyParts(CardinalityFindings(s.request.surfaces) + LoadFindings(s, s.request.surfaces), RequestFindings(s));
    EmptyParts(CardinalityFindings(s.request.surfaces), LoadFindings(s, s.request.surfaces));
    EndWithoutFindings(canon, ctx, request, loaded);
  }

  lemma ParsedWithoutFindings(value: Option<Request>)
    requires ParseFindings(value) == []
    ensures value.Some? && RequestOk(value.value) && ParsedRequest(value) == value
  {
    hide FieldsOk, RequestOk;
  }

  lemma StartWithoutFindings(canon: Canon, ctx: Context, request: Option<Request>)
    requires StartFindings(canon, ctx, request) == [] && request.Some?
    ensures Ready(canon, ctx, request).Some? && Ready(canon, ctx, request).value.request == request.value
    ensures TaskCheck(ctx, request).Some?
  {
    hide TaskCheck, BoundsFindings, SourceFindings, TrustFindings, SealedIf;
    EmptyParts(BoundsFindings(ctx, request) + SourceFindings(canon, ctx), TrustFindings(ctx));
    EmptyParts(BoundsFindings(ctx, request), SourceFindings(canon, ctx));
    SourceNeedsGit(canon, ctx);
  }

  lemma SourceNeedsGit(canon: Canon, ctx: Context)
    ensures SourceAtStart(canon, ctx).Some? ==> GitTrusted(ctx) && Policy(ctx).Some? && ctx.aggregateCheck.Some?
  {
  }

  lemma EndWithoutFindings(canon: Canon, ctx: Context, request: Option<Request>, loaded: seq<Loaded>)
    requires EndFindings(canon, ctx, request, loaded) == []
    ensures Derived(request, loaded) && !SourceMoved(canon, ctx)
    ensures !SelfGraded(OnlyOne(Performers(loaded), UNRESOLVED), Issuing(request), true)
  {
    hide Derived, SourceMoved, LoadedFindings, OnlyOne, Performers, Issuing, Blank;
  }

  /** A verdict is verified exactly when nothing at all was found. */
  lemma VerifiedExactlyWithoutFindings(canon: Canon, ctx: Context, value: Option<Request>)
    ensures VerdictOf(canon, ctx, value).status.Verified? <==> AllFindings(canon, ctx, value) == []
  {
    hide BuildReferences, AllFindings, UniqueSortedFindings, LoadedSurfaces, ParsedRequest;
    NoFindingsReported(ctx, AllFindings(canon, ctx, value));
    if AllFindings(canon, ctx, value) == [] {
      CleanReferences(canon, ctx, value);
    }
  }

  lemma CleanReferences(canon: Canon, ctx: Context, value: Option<Request>)
    requires AllFindings(canon, ctx, value) == []
    ensures |BuildReferences(LoadedSurfaces(canon, ctx, ParsedRequest(value)))| == 2
  {
    hide BuildReferences, AllFindings, LoadedFrom, LoadedOk, LoadFindings, RequestOk, Ready;
    var s, loaded := CleanEvaluation(canon, ctx, value);
    TwoLoaded(s, loaded, value);
    TwoReferences(loaded);
  }

  /** The two loaded surfaces of a clean evaluation: one of each role, in distinct places, both passed. */
  lemma TwoLoaded(s: Setting, loaded: seq<Loaded>, request: Option<Request>)
    requires loaded == LoadedFrom(s, s.request.surfaces) && LoadFindings(s, s.request.surfaces) == []
    requires CardinalityFindings(s.request.surfaces) == [] && Derived(request, loaded)
    ensures |loaded| == 2 == |s.request.surfaces|
    ensures forall i :: 0 <= i < 2 ==>
      LoadedInPlace(loaded[i], s.request.surfaces[i]) && LoadedOk(s, s.request.surfaces[i], loaded[i])
    ensures forall i :: 0 <= i < 2 ==> loaded[i].result.readableSurface == loaded[i].descriptor.readableSurface
    ensures loaded[0].descriptor.role != loaded[1].descriptor.role
    ensures loaded[0].descriptor.readableSurface != loaded[1].descriptor.readableSurface
    ensures loaded[0].artifact.dispatchReceipt.receiptDigest == loaded[1].artifact.dispatchReceipt.receiptDigest
    ensures OnlyOne(Receipts(loaded), "") == loaded[0].artifact.dispatchReceipt.receiptDigest
  {
    hide Backed, LoadedFrom, LoadFindings, CardinalityFindings, Count, Passed;
    var surfaces := s.request.surfaces;
    OneOfEachRole(surfaces);
    AllLoaded(s, surfaces);
    LoadedFacts(s, surfaces, 0);
    LoadedFacts(s, surfaces, 1);
    CountOfTwo(Surfaces(loaded));
    CountOfOne(Receipts(loaded), 1);
  }

  // ---------------------------------------------------------------- main results

  /**
   The performer and receipt a verdict reports are those of loaded receipts, or placeholders when nothing was loaded.
   */
  lemma ReportedTexts(s: Setting, loaded: seq<Loaded>)
    requires s.canon.Sound() && loaded == LoadedFrom(s, s.request.surfaces)
    ensures NamedMechanism(OnlyOne(Performers(loaded), UNRESOLVED))
    ensures var digest := OnlyOne(Receipts(loaded), s.canon.sha256(UNRESOLVED_RECEIPT));
      Digest(digest) && (loaded != [] && Count(Receipts(loaded)) == 1 ==> digest != s.canon.sha256(UNRESOLVED_RECEIPT))
  {
    FixedMechanisms();
    hide NamedMechanism, Digest, Count, LoadedFrom, LoadedOk;
    if loaded != [] {
      LoadedFacts(s, s.request.surfaces, 0);
      LoadedReceipt(s, loaded[0].descriptor, loaded[0]);
    }
  }

  lemma SettledTexts(canon: Canon, ctx: Context, value: Option<Request>)
    requires canon.Sound()
    ensures var b := VerdictOf(canon, ctx, value);
      NamedMechanism(b.performingMechanism) && Digest(b.dispatchReceiptDigest)
    ensures var loaded := LoadedSurfaces(canon, ctx, ParsedRequest(value));
      loaded != [] && Count(Receipts(loaded)) == 1 ==>
        VerdictOf(canon, ctx, value).dispatchReceiptDigest != canon.sha256(UNRESOLVED_RECEIPT)
  {
    var request := ParsedRequest(value);
    ReadyKeeps(canon, ctx, request);
    FixedMechanisms();
    hide BuildReferences, AllFindings, UniqueSortedFindings, NamedMechanism, Digest, Count, Derived, LoadedFrom,
      ParsedRequest,
      Ready, TaskCheck, SourceAtStart, Policy, SortBy, DeriveRung, Issuing, OrUnresolved;
    if Ready(canon, ctx, request).Some? {
      var s := Ready(canon, ctx, request).value;
      ReportedTexts(s, LoadedFrom(s, s.request.surfaces));
    }
  }

  lemma LoadedReceipt(s: Setting, d: Surface, l: Loaded)
    requires s.canon.Sound() && LoadedOk(s, d, l)
    ensures var r := l.artifact.dispatchReceipt;
      NamedMechanism(r.body.performingMechanism) && Digest(r.receiptDigest)
      && r.receiptDigest != s.canon.sha256(UNRESOLVED_RECEIPT)
  {
    ReceiptIsResolved(s.canon, l.artifact.dispatchReceipt);
  }

  lemma ReferencesAreOk(canon: Canon, ctx: Context, value: Option<Request>, i: nat)
    requires canon.Sound() && i < |VerdictOf(canon, ctx, value).references|
    ensures ReferenceOk(VerdictOf(canon, ctx, value).references[i])
  {
    hide BuildReferences, AllFindings, UniqueSortedFindings, Digest, Blank, LoadedFrom, Count, LoadedOk;
    var request := ParsedRequest(value);
    var loaded := LoadedSurfaces(canon, ctx, request);
    var k, m := ReferencesComeFromSurfaces(loaded, i);
    var s := Ready(canon, ctx, request).value;
    LoadedFacts(s, s.request.surfaces, k);
    LoadedFacts(s, s.request.surfaces, m);
    LoadedTexts(s, loaded[k]);
    LoadedTexts(s, loaded[m]);
  }

  lemma LoadedTexts(s: Setting, l: Loaded)
    requires s.canon.Sound() && RequestOk(s.request) && l.descriptor in s.request.surfaces
      && LoadedOk(s, l.descriptor, l)
    ensures !Blank(l.result.namedCheck) && !Blank(l.result.readableSurface) && !Blank(l.result.recordedResult)
    ensures Digest(l.descriptor.sha256)
  {
    var i :| 0 <= i < |s.request.surfaces| && s.request.surfaces[i] == l.descriptor;
    assert SurfaceOk(s.request.surfaces[i]);
    hide Backed, Blank, Digest, RequestOk;
    OpensVisibly(s.canon.summaryText(l.artifact));
  }

  lemma OpensVisibly(text: string)
    requires OpensObject(text)
    ensures !Blank(text)
  {
    StartsVisibly(text);
  }

  /**
   A verdict without findings passes the stricter conditions of a verified one, a verdict with findings those of a
   failed one.
   */
  lemma StatusIsOk(canon: Canon, ctx: Context, value: Option<Request>)
    requires canon.Sound()
    ensures var b := VerdictOf(canon, ctx, value);
      if b.status.Failed? then FailedOk(b)
      else b.dispatchTrustPolicyDigest != canon.sha256(UNRESOLVED_POLICY) ==> VerifiedOk(canon, b)
  {
    hide BuildReferences, AllFindings, UniqueSortedFindings, LoadedSurfaces, ParsedRequest, OnlyOne, Digest,
      NamedMechanism,
      Canon.Sound, TaskCheck, SourceAtStart, Policy, Issuing, SortBy, Count, Receipts, Performers;
    VerifiedExactlyWithoutFindings(canon, ctx, value);
    SettledTexts(canon, ctx, value);
    NoFindingsReported(ctx, AllFindings(canon, ctx, value));
    if AllFindings(canon, ctx, value) == [] {
      CleanIsDerived(canon, ctx, value);
    }
  }

  lemma CleanIsDerived(canon: Canon, ctx: Context, value: Option<Request>)
    requires AllFindings(canon, ctx, value) == []
    ensures var loaded := LoadedSurfaces(canon, ctx, ParsedRequest(value));
      Derived(ParsedRequest(value), loaded) && loaded != [] && Count(Receipts(loaded)) == 1
  {
    var s, loaded := CleanEvaluation(canon, ctx, value);
  }

  /** Whatever is fit to be persisted satisfies the independent validator. */
  lemma PersistedVerdictIsValid(canon: Canon, ctx: Context, value: Option<Request>)
    requires canon.Sound() && FactsOk(ctx)
    ensures Persistable(canon, VerdictOf(canon, ctx, value)) ==>
      ValidatePersistedVerdict(canon, SealVerdict(canon, VerdictOf(canon, ctx, value)))
  {
    hide ValidatePersistedVerdict, VerdictOf;
    if Persistable(canon, VerdictOf(canon, ctx, value)) { PersistableIsValid(canon, ctx, value); }
  }

  lemma PersistableIsValid(canon: Canon, ctx: Context, value: Option<Request>)
    requires canon.Sound() && FactsOk(ctx) && Persistable(canon, VerdictOf(canon, ctx, value))
    ensures ValidatePersistedVerdict(canon, SealVerdict(canon, VerdictOf(canon, ctx, value)))
  {
    hide VerifiedOk, FailedOk, ReferenceOk, TaskId, Blank, NamedMechanism, ValidFingerprint, VerdictOf, Digest,
      LoadedSurfaces, ParsedRequest, Persistable, FactsOk, Canon.Sound, Count, Receipts;
    StatusIsOk(canon, ctx, value);
    SettledTexts(canon, ctx, value);
    TaskAndSource(canon, ctx, value);
    var b := VerdictOf(canon, ctx, value);
    forall i | 0 <= i < |b.references| ensures ReferenceOk(b.references[i]) {
      ReferencesAreOk(canon, ctx, value, i);
    }
    forall i | 0 <= i < |b.findings| ensures !Blank(b.findings[i].detail) {
      FindingIsVisible(canon, ctx, value, i);
    }
  }

  lemma FindingIsVisible(canon: Canon, ctx: Context, value: Option<Request>, i: nat)
    requires i < |VerdictOf(canon, ctx, value).findings|
    ensures !Blank(VerdictOf(canon, ctx, value).findings[i].detail)
  {
    hide AllFindings, UniqueSortedFindings, BuildReferences, Blank;
    var f := VerdictOf(canon, ctx, value).findings[i];
    FindingsAreVisible(canon, ctx, value);
    SameFindings(ctx, AllFindings(canon, ctx, value), f);
    VisibleIsNotBlank(f.detail);
  }

  lemma VisibleIsNotBlank(s: string)
    requires HasVisible(s)
    ensures !Blank(s)
  {
    TrimLeavesVisible(s);
  }

  lemma TaskAndSource(canon: Canon, ctx: Context, value: Option<Request>)
    requires canon.Sound() && FactsOk(ctx) && Persistable(canon, VerdictOf(canon, ctx, value))
    ensures var b := VerdictOf(canon, ctx, value);
      && TaskId(b.taskId) && NamedMechanism(b.verdictIssuingMechanism)
      && b.sourceFingerprint.Some? && ValidFingerprint(canon, b.sourceFingerprint.value)
      && Digest(b.dispatchTrustPolicyDigest) && Digest(b.evidenceDigest)
      && b.dispatchTrustPolicyDigest != canon.sha256(UNRESOLVED_POLICY) && Digest(SealVerdict(canon, b).verdictDigest)
  {
    hide BuildReferences, AllFindings, UniqueSortedFindings, LoadedSurfaces, Digest, HexBetween, TaskId,
      NamedMechanism, SortBy;
    FixedMechanisms();
  }

  /**
   What a reference of a verified verdict rests on: the file at its surface holds an artifact whose check ran and
   passed.
   */
  ghost predicate RestsOn(s: Setting, b: VerdictBody, r: Reference, a: ArtifactBody) {
    var d := Surface(r.role, r.namedCheck, r.readableSurface, r.artifactSha256);
    && d in s.request.surfaces && Backed(s, d, a) && a.ran && Passed(s.ctx, a)
    && r.recordedResult == s.canon.summaryText(a)
    && a.dispatchReceipt.receiptDigest == b.dispatchReceiptDigest
    && a.dispatchReceipt.body.taskId == b.taskId
    && a.dispatchReceipt.body.performingMechanism == b.performingMechanism == s.request.performingMechanism
  }

  lemma RestsOnLoaded(s: Setting, b: VerdictBody, l: Loaded)
    requires LoadedOk(s, l.descriptor, l) && l.descriptor in s.request.surfaces && l.result.ran && l.result.passed
    requires l.artifact.dispatchReceipt.receiptDigest == b.dispatchReceiptDigest
    requires b.taskId == s.request.taskId
      && b.performingMechanism == l.artifact.dispatchReceipt.body.performingMechanism
    ensures RestsOn(s, b, ReferenceOf(l), l.artifact)
  {
    hide Holds, Passed, Blank;
    var a := l.artifact;
    NoReceiptFindings(s.ctx, a.dispatchReceipt, s.request.taskId, a.sourceFingerprint, s.request.performingMechanism);
  }

  lemma NoReceiptFindings(ctx: Context, receipt: Receipt, taskId: string, source: Fingerprint, performing: string)
    requires ReceiptFindings(ctx, receipt, taskId, source, performing) == []
    ensures receipt.body.taskId == taskId && receipt.body.sourceFingerprint == source
    ensures receipt.body.performingMechanism == performing != receipt.body.issuer
    ensures receipt.body.issuer != ISSUER && ctx.issuerSigned(receipt)
  {
  }

  /** One reference per role, on distinct surfaces, each resting on a check that ran and passed under one shared receipt
      issued by someone else than the performer, with the source unmoved from start to end. */
  ghost predicate Supported(s: Setting, b: VerdictBody, first: ArtifactBody, second: ArtifactBody) {
    && |b.references| == 2
    && b.references[0].role.ExistingVerification? && b.references[1].role.TaskNamedCheck?
    && b.references[0].readableSurface != b.references[1].readableSurface
    && RestsOn(s, b, b.references[0], first) && RestsOn(s, b, b.references[1], second)
    && b.performingMechanism != b.verdictIssuingMechanism && !SourceMoved(s.canon, s.ctx)
    && !b.rung.blocked && b.derivedFromSurfacedOutput
  }

  /** A verified verdict is supported by what the surfaces of a well-formed request hold. */
  lemma VerifiedMeaning(canon: Canon, ctx: Context, value: Option<Request>)
    ensures VerdictOf(canon, ctx, value).status.Verified? ==>
      && value.Some? && RequestOk(value.value) && value.value.openFindings == [] && Ready(canon, ctx, value).Some?
      && exists first, second :: Supported(Ready(canon, ctx, value).value, VerdictOf(canon, ctx, value), first, second)
  {
    hide VerdictOf, RequestOk, Ready, Supported;
    if VerdictOf(canon, ctx, value).status.Verified? {
      var s, first, second := SupportOfVerified(canon, ctx, value);
    }
  }

  lemma SupportOfVerified(canon: Canon, ctx: Context, value: Option<Request>)
    returns (s: Setting, first: ArtifactBody, second: ArtifactBody)
    requires VerdictOf(canon, ctx, value).status.Verified?
    ensures value.Some? && RequestOk(value.value) && Ready(canon, ctx, value) == Some(s) && s.request == value.value
    ensures value.value.openFindings == []
    ensures s.canon == canon && s.ctx == ctx
    ensures Supported(s, VerdictOf(canon, ctx, value), first, second)
  {
    hide AllFindings, VerdictOf, BuildReferences, LoadedFrom, LoadFindings, LoadedOk, RequestOk, Ready, LoadedSurfaces,
      CardinalityFindings, RequestFindings, SourceMoved, Count, RestsOn, OnlyOne, Blank;
    VerifiedExactlyWithoutFindings(canon, ctx, value);
    var loaded;
    s, loaded := CleanEvaluation(canon, ctx, value);
    NothingOpen(s);
    TwoLoaded(s, loaded, value);
    TwoReferences(loaded);
    CountOfOne(Performers(loaded), 1);
    var b := VerdictOf(canon, ctx, value);
    VerdictFields(canon, ctx, value, loaded);
    ReadyKeeps(canon, ctx, value);
    RestsOnLoaded(s, b, loaded[0]);
    RestsOnLoaded(s, b, loaded[1]);
    if loaded[0].descriptor.role.ExistingVerification? {
      first, second := loaded[0].artifact, loaded[1].artifact;
    } else {
      first, second := loaded[1].artifact, loaded[0].artifact;
    }
  }

  lemma ReadyKeeps(canon: Canon, ctx: Context, request: Option<Request>)
    ensures Ready(canon, ctx, request).Some? ==>
      Ready(canon, ctx, request).value.canon == canon && Ready(canon, ctx, request).value.ctx == ctx
  {
  }

  lemma VerdictFields(canon: Canon, ctx: Context, value: Option<Request>, loaded: seq<Loaded>)
    requires value.Some? && ParsedRequest(value) == value && loaded == LoadedSurfaces(canon, ctx, value)
    requires Derived(value, loaded) && AllFindings(canon, ctx, value) == []
    ensures var b := VerdictOf(canon, ctx, value);
      && b.taskId == value.value.taskId && b.references == BuildReferences(loaded)
      && b.performingMechanism == loaded[0].artifact.dispatchReceipt.body.performingMechanism
      && b.dispatchReceiptDigest == loaded[0].artifact.dispatchReceipt.receiptDigest
      && b.verdictIssuingMechanism == value.value.verdictIssuingMechanism
      && b.derivedFromSurfacedOutput && !b.rung.blocked
      && b.performingMechanism == OnlyOne(Performers(loaded), UNRESOLVED)
  {
    NoFindingsReported(ctx, AllFindings(canon, ctx, value));
    hide AllFindings, UniqueSortedFindings, BuildReferences, LoadedSurfaces, SortBy;
  }
}
