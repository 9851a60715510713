/** The values evidence verdicts are made of, and the small rules for references, self-grading and rungs. */
module EvidenceContracts {
  import opened Options
  import opened Texts

  datatype Role = ExistingVerification | TaskNamedCheck

  function RoleText(role: Role): string {
    match role
    case ExistingVerification => "existing-verification"
    case TaskNamedCheck => "task-named-check"
  }

  datatype FindingCode =
    | CheckFailed | CheckNotRun | DuplicateEvidenceSurface | EvidenceDigestMismatch | EvidenceSinkUntrusted
    | EvidencePathForbidden | EvidenceUnreadable | DispatchReceiptInvalid | DispatchReceiptSourceMismatch
    | DispatchReceiptTaskMismatch | DispatchReceiptUntrusted | DispatchTrustAnchorMismatch
    | DispatchTrustAnchorUnavailable | InvalidEvidenceRequest | NamedCheckMismatch | PerformerIdentityMismatch
    | SelfGradedVerdict | SourceChangedDuringCheck | SourceChangedDuringEvaluation | SourceFingerprintMismatch
    | SourceFingerprintUnavailable | TaskBoundsUnresolved | UnresolvedEvidence

  datatype Finding = Finding(code: FindingCode, detail: string)

  datatype Surface = Surface(role: Role, namedCheck: string, readableSurface: string, sha256: string)

  datatype Request = Request(
    taskId: string, performingMechanism: string, verdictIssuingMechanism: string,
    openFindings: seq<string>, surfaces: seq<Surface>)

  datatype FingerprintBody = FingerprintBody(implementationBaseline: string, headRevision: string,
    authoredFileCount: int, authoredTreeSha256: string)

  datatype Fingerprint = Fingerprint(body: FingerprintBody, fingerprintDigest: string)

  /** What a dispatch receipt signs; scope, lease and keys are carried along unexamined. */
  datatype ReceiptBody = ReceiptBody(
    taskId: string, performingMechanism: string, sourceFingerprint: Fingerprint, issuer: string, issuerKeyId: string,
    remainder: string)

  datatype Receipt = Receipt(body: ReceiptBody, receiptDigest: string, signature: string)

  datatype ArtifactBody = ArtifactBody(
    namedCheck: string, performingMechanism: string, dispatchReceipt: Receipt, dispatchTrustPolicyDigest: string,
    sourceFingerprint: Fingerprint, sourceStable: bool, ran: bool, exitCode: Option<int>,
    stdout: string, stderr: string, outputTruncated: bool)

  datatype Artifact = Artifact(body: ArtifactBody, artifactDigest: string, performerSignature: string)

  datatype CheckResult = CheckResult(
    namedCheck: string, ran: bool, passed: bool, recordedResult: string, readableSurface: string)

  datatype Loaded = Loaded(descriptor: Surface, artifact: ArtifactBody, result: CheckResult)

  datatype Reference = Reference(
    role: Role, namedCheck: string, recordedResult: string, readableSurface: string, artifactSha256: string)

  datatype Rung = Rung(localRung: string, blocked: bool)

  datatype Status = Verified | Failed

  datatype VerdictBody = VerdictBody(
    taskId: string, status: Status, performingMechanism: string, verdictIssuingMechanism: string,
    derivedFromSurfacedOutput: bool, existingVerification: string, taskNamedCheck: string,
    sourceFingerprint: Option<Fingerprint>, dispatchReceiptDigest: string, dispatchTrustPolicyDigest: string,
    references: seq<Reference>, findings: seq<Finding>, rung: Rung, evidenceDigest: string)

  datatype Verdict = Verdict(body: VerdictBody, verdictDigest: string)

  const ISSUER := "evidence-verdict-runner"
  const UNRESOLVED := "unresolved"
  const UNRESOLVED_RECEIPT := "unresolved-dispatch-receipt"
  const UNRESOLVED_POLICY := "unresolved-dispatch-trust-policy"

  // ---------------------------------------------------------------- shapes of texts

  predicate Blank(s: string) { Trim(s) == "" }

  predicate HexBetween(s: string, low: nat, high: nat) {
    low <= |s| <= high && forall i :: 0 <= i < |s| ==> IsHex(s[i])
  }

  predicate Digest(s: string) { HexBetween(s, 64, 64) }

  predicate DigitsOnly(s: string) { s != "" && forall i :: 0 <= i < |s| ==> IsDigit(s[i]) }

  predicate TaskId(s: string) {
    exists k :: 0 <= k < |s| && s[k] == '.' && DigitsOnly(s[..k]) && DigitsOnly(s[k + 1..])
  }

  predicate MechanismStart(c: char) { IsDigit(c) || 'a' <= c <= 'z' }

  predicate NamedMechanism(s: string) {
    1 <= |s| <= 128 && MechanismStart(s[0])
    && forall i :: 1 <= i < |s| ==> MechanismStart(s[i]) || s[i] == '.' || s[i] == '_' || s[i] == ':' || s[i] == '-'
  }

  lemma StartsVisibly(s: string)
    requires s != "" && !IsSpace(s[0])
    ensures !Blank(s)
  {
    TrimEndKeepsStart(s);
  }

  lemma FixedMechanisms()
    ensures NamedMechanism(UNRESOLVED) && NamedMechanism(ISSUER) && !TaskId(UNRESOLVED)
  {
    assert |UNRESOLVED| == 10 && |ISSUER| == 23;
    assert '.' !in UNRESOLVED;
  }

  // ---------------------------------------------------------------- canonical texts and their digests

  /** The digest and the canonical JSON texts it is taken of. */
  datatype Canon = Canon(
    sha256: string -> string,
    fingerprintText: FingerprintBody -> string,
    receiptText: ReceiptBody -> string,
    artifactText: ArtifactBody -> string,
    evidenceText: (string, string, Option<Fingerprint>, seq<Surface>) -> string,
    verdictText: VerdictBody -> string,
    summaryText: ArtifactBody -> string)
  {
    /**
     Digests are hexadecimal, the text of an object opens with a brace, and no object has the digest of a
     placeholder.
     */
    ghost predicate Sound() {
      && (forall s :: Digest(sha256(s)))
      && (forall s :: OpensObject(s) ==> sha256(s) != sha256(UNRESOLVED_RECEIPT))
      && (forall r :: OpensObject(receiptText(r)))
      && (forall a :: OpensObject(summaryText(a)))
    }
  }

  predicate OpensObject(s: string) { s != "" && s[0] == '{' }

  predicate ValidFingerprint(canon: Canon, f: Fingerprint) {
    && HexBetween(f.body.implementationBaseline, 40, 40) && HexBetween(f.body.headRevision, 40, 64)
    && 0 <= f.body.authoredFileCount <= 9007199254740991
    && Digest(f.body.authoredTreeSha256) && Digest(f.fingerprintDigest)
    && canon.sha256(canon.fingerprintText(f.body)) == f.fingerprintDigest
  }

  predicate ReceiptOk(canon: Canon, r: Receipt) {
    && NamedMechanism(r.body.performingMechanism) && NamedMechanism(r.body.issuer) && NamedMechanism(r.body.issuerKeyId)
    && ValidFingerprint(canon, r.body.sourceFingerprint) && Digest(r.receiptDigest)
    && canon.sha256(canon.receiptText(r.body)) == r.receiptDigest
  }

  /** A receipt's digest is never the placeholder for a missing one. */
  lemma ReceiptIsResolved(canon: Canon, r: Receipt)
    requires canon.Sound() && ReceiptOk(canon, r)
    ensures r.receiptDigest != canon.sha256(UNRESOLVED_RECEIPT)
  {
    assert OpensObject(canon.receiptText(r.body));
  }

  // ---------------------------------------------------------------- references, self-grading, rungs

  /** Only results of checks that ran and passed become references. */
  function EmitReferences(results: seq<CheckResult>): seq<CheckResult> {
    if results == [] then []
    else
      var last := results[|results| - 1];
      EmitReferences(results[..|results| - 1]) + (if last.ran && last.passed then [last] else [])
  }

  predicate SelfGraded(performing: string, issuing: string, derivedFromSurfacedOutput: bool) {
    Blank(performing) || Blank(issuing) || performing == issuing || !derivedFromSurfacedOutput
  }

  function DeriveRung(references: seq<Reference>, openFindings: nat): Rung {
    if openFindings > 0 then Rung("blocked", true)
    else Rung(if |references| > 0 then "source-verified" else "not-started", false)
  }
}
