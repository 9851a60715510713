/**
 From the verdict back to the source: what a verified verdict says about the trees its checks and its evaluation saw.
 */
module VerifiedSource {
  import CommitRange
  import opened EvidenceContracts
  import opened EvidenceVerdicts
  import opened Options
  import opened SourceFrames
  import opened VerdictValidation

  /** The repository as Git knows it: commits, the revisions that name them, and the answers Git gives. */
  datatype Repository<B> =
    Repository(history: CommitRange.History<B>, commits: map<string, nat>, git: CommitRange.Git, usable: bool)

  ghost predicate Reliable<B(!new)>(repo: Repository<B>) {
    && CommitRange.Acyclic(repo.history) && CommitRange.NamesUsable(repo.history)
    && CommitRange.Truthful(repo.git, repo.history)
    && forall revision :: revision in repo.commits ==> repo.commits[revision] < |repo.history|
  }

  function Located<B>(repo: Repository<B>, f: FingerprintBody): CommitRange.Fingerprint<string>
    requires f.headRevision in repo.commits
  {
    CommitRange.Fingerprint(
      f.implementationBaseline, repo.commits[f.headRevision], f.authoredFileCount, f.authoredTreeSha256)
  }

  /** The check of recorded against current source: equal heads settle it, and other heads have to name commits. */
  ghost predicate SourceIsCurrent<B>(repo: Repository<B>, recorded: FingerprintBody, current: FingerprintBody) {
    if recorded.headRevision == current.headRevision then recorded == current
    else
      && recorded.headRevision in repo.commits && current.headRevision in repo.commits
      && CommitRange.StillCurrent(Located(repo, recorded), Located(repo, current), repo.usable, repo.git)
  }

  /** The evaluator asks this check about this repository. */
  ghost predicate ChecksSource<B>(ctx: Context, repo: Repository<B>) {
    forall a, b :: ctx.stillCurrent(a, b) <==> SourceIsCurrent(repo, a.body, b.body)
  }

  /** The fingerprint was taken of these entries: every listed path with its mode, kind and content. */
  ghost predicate TakenOf(hash: Bytes -> string, f: FingerprintBody, entries: seq<Entry>) {
    f.authoredTreeSha256 == hash(EncodeAll(entries))
  }

  /**
   Two fingerprints of the same source: they differ at most in the head, were taken of the same entries, and the
   committed trees agree off the evidence paths.
   */
  ghost predicate SameSource<B(!new)>(repo: Repository<B>, hash: Bytes -> string,
      a: FingerprintBody, b: FingerprintBody)
    requires Reliable(repo)
  {
    && a.(headRevision := b.headRevision) == b
    && (forall seen, evaluated :: TakenOf(hash, a, seen) && TakenOf(hash, b, evaluated) ==> seen == evaluated)
    && (a.headRevision in repo.commits && b.headRevision in repo.commits ==>
          CommitRange.AgreeOffEvidence(
            repo.history[repo.commits[a.headRevision]].tree, repo.history[repo.commits[b.headRevision]].tree))
  }

  lemma CurrentIsSame<B(!new)>(repo: Repository<B>, hash: Bytes -> string,
      recorded: FingerprintBody, current: FingerprintBody)
    requires Reliable(repo) && CollisionFree(hash) && SourceIsCurrent(repo, recorded, current)
    ensures SameSource(repo, hash, recorded, current)
  {
    if recorded.headRevision != current.headRevision {
      CommitRange.CurrentMeansSameSource(repo.git, repo.history, repo.usable, Located(repo, recorded),
        Located(repo, current));
    }
    forall seen, evaluated | TakenOf(hash, recorded, seen) && TakenOf(hash, current, evaluated)
      ensures seen == evaluated
    {
      DigestIdentifiesTree(hash, seen, evaluated);
    }
  }

  /** The checks and both ends of the evaluation saw the same source. */
  ghost predicate OneSource<B(!new)>(repo: Repository<B>, hash: Bytes -> string,
      first: ArtifactBody, second: ArtifactBody, start: Fingerprint, end: Fingerprint)
    requires Reliable(repo)
  {
    && SameSource(repo, hash, first.sourceFingerprint.body, start.body)
    && SameSource(repo, hash, second.sourceFingerprint.body, start.body)
    && SameSource(repo, hash, start.body, end.body)
  }

  /**
   A verified verdict is about one source. The two checks it rests on and both ends of the evaluation have fingerprints
   that differ in nothing but the head; they were taken of the same entries, and the committed trees under those heads
   agree off the evidence paths.
   */
  lemma VerifiedMeansSameSource<B(!new)>(canon: Canon, ctx: Context, value: Option<Request>,
      repo: Repository<B>, hash: Bytes -> string)
    requires Reliable(repo) && ChecksSource(ctx, repo) && CollisionFree(hash)
    ensures VerdictOf(canon, ctx, value).status.Verified? ==>
      && SourceAtStart(canon, ctx).Some? && SourceAtEnd(canon, ctx).Some? && Ready(canon, ctx, value).Some?
      && VerdictOf(canon, ctx, value).sourceFingerprint == SourceAtStart(canon, ctx)
      && exists first, second ::
           && Supported(Ready(canon, ctx, value).value, VerdictOf(canon, ctx, value), first, second)
           && OneSource(repo, hash, first, second, SourceAtStart(canon, ctx).value, SourceAtEnd(canon, ctx).value)
  {
    hide VerdictOf, Supported, SourceIsCurrent, SameSource, Ready;
    if VerdictOf(canon, ctx, value).status.Verified? {
      var s, first, second := SupportOfVerified(canon, ctx, value);
      SourceOfVerified(canon, ctx, value, s, first, second);
      CurrentIsSame(repo, hash, first.sourceFingerprint.body, s.source.body);
      CurrentIsSame(repo, hash, second.sourceFingerprint.body, s.source.body);
      CurrentIsSame(repo, hash, s.source.body, SourceAtEnd(canon, ctx).value.body);
    }
  }

  lemma SourceOfVerified(canon: Canon, ctx: Context, value: Option<Request>, s: Setting,
      first: ArtifactBody, second: ArtifactBody)
    requires Ready(canon, ctx, value) == Some(s) && s.canon == canon && s.ctx == ctx
    requires Supported(s, VerdictOf(canon, ctx, value), first, second)
    ensures SourceAtStart(canon, ctx) == Some(s.source) && SourceAtEnd(canon, ctx).Some?
    ensures VerdictOf(canon, ctx, value).sourceFingerprint == Some(s.source)
    ensures ctx.stillCurrent(first.sourceFingerprint, s.source) && ctx.stillCurrent(second.sourceFingerprint, s.source)
    ensures ctx.stillCurrent(s.source, SourceAtEnd(canon, ctx).value)
  {
    hide VerdictOf;
    VerdictSource(canon, ctx, value);
  }

  lemma VerdictSource(canon: Canon, ctx: Context, value: Option<Request>)
    ensures VerdictOf(canon, ctx, value).sourceFingerprint == SourceAtStart(canon, ctx)
  {
  }
}
