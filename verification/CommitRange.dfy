/** When evidence recorded at one commit still counts at another: commits between them changed evidence output only. */
module CommitRange {
  import opened Options
  import opened SourceFrames

  // ---------------------------------------------------------------- history

  /** A commit names its parents by position; what a tree holds at a path is left abstract. */
  datatype Commit<B> = Commit(parents: seq<nat>, tree: map<Bytes, B>)

  type History<B> = seq<Commit<B>>

  /** Parents come earlier, so no commit is its own ancestor. */
  ghost predicate Acyclic<B>(h: History<B>) {
    forall c, i :: 0 <= c < |h| && 0 <= i < |h[c].parents| ==> h[c].parents[i] < c
  }

  ghost predicate NamesUsable<B(!new)>(h: History<B>) {
    forall c, p :: 0 <= c < |h| && p in h[c].tree ==> p != [] && NulFree(p)
  }

  ghost predicate Reaches<B>(h: History<B>, from: nat, to: nat)
    requires Acyclic(h) && from < |h|
    decreases from
  {
    from == to || exists i :: 0 <= i < |h[from].parents| && Reaches(h, h[from].parents[i], to)
  }

  ghost predicate InRange<B>(h: History<B>, recorded: nat, current: nat, c: nat)
    requires Acyclic(h) && recorded < |h| && current < |h| && c < |h|
  {
    Reaches(h, current, c) && !Reaches(h, recorded, c)
  }

  ghost predicate Differs<B>(a: map<Bytes, B>, b: map<Bytes, B>, path: Bytes) {
    (path in a) != (path in b) || (path in a && a[path] != b[path])
  }

  // ---------------------------------------------------------------- evidence paths

  const BACKSLASH: Byte := 0x5C
  const SLASH: Byte := 0x2F
  const BYTE_ORDER_MARK: Bytes := [0xEF, 0xBB, 0xBF]
  const EVIDENCE_DIRECTORY: Bytes := // docs/evidence-verdicts
    [0x64, 0x6F, 0x63, 0x73, 0x2F, 0x65, 0x76, 0x69, 0x64, 0x65, 0x6E, 0x63, 0x65, 0x2D,
     0x76, 0x65, 0x72, 0x64, 0x69, 0x63, 0x74, 0x73]

  /** What the text decoder and the slash replacement leave of a path, as far as an ASCII comparison can see. */
  function Normalized(path: Bytes): (r: Bytes) {
    var body := if BYTE_ORDER_MARK <= path then path[3..] else path;
    seq<Byte>(|body|, i requires 0 <= i < |body| => if body[i] == BACKSLASH then SLASH else body[i])
  }

  /** The directory itself or anything below it. */
  predicate UnderEvidence(path: Bytes) { path == EVIDENCE_DIRECTORY || EVIDENCE_DIRECTORY + [SLASH] <= path }

  predicate EvidenceOutput(path: Bytes) { UnderEvidence(Normalized(path)) }

  predicate PlainlyNamed(path: Bytes) { BACKSLASH !in path && !(BYTE_ORDER_MARK <= path) }

  /** For plainly named paths the test is exactly membership of the directory. */
  lemma EvidenceOutputOfPlainName(path: Bytes)
    requires PlainlyNamed(path)
    ensures EvidenceOutput(path) <==> UnderEvidence(path)
  {
    assert Normalized(path) == path;
  }

  lemma DirectoryIsPlain()
    ensures BACKSLASH !in EVIDENCE_DIRECTORY && EVIDENCE_DIRECTORY != []
    ensures EVIDENCE_DIRECTORY[0] != BYTE_ORDER_MARK[0]
  {
  }

  /** A start without backslashes is not changed, unless a byte order mark comes first. */
  lemma PlainStartStays(path: Bytes, start: Bytes)
    requires start <= path && BACKSLASH !in start && start != [] && start[0] != BYTE_ORDER_MARK[0]
    ensures start <= Normalized(path) && |Normalized(path)| == |path|
  {
    assert path[0] == start[0];
    hide BYTE_ORDER_MARK;
    assert forall i :: 0 <= i < |start| ==> start[i] != BACKSLASH && Normalized(path)[i] == path[i] == start[i];
  }

  /** Every path below the directory counts as evidence output, however it goes on. */
  lemma BelowDirectoryIsEvidence(path: Bytes)
    requires UnderEvidence(path)
    ensures EvidenceOutput(path)
  {
    DirectoryIsPlain();
    hide EVIDENCE_DIRECTORY, BYTE_ORDER_MARK, Normalized;
    var dir := EVIDENCE_DIRECTORY;
    PlainStartStays(path, dir);
    if path == dir {
      assert Normalized(path) == dir;
    } else {
      PlainStartStays(path, dir + [SLASH]);
    }
  }

  /** A file in the root whose name spells the directory with backslashes passes the test as well. */
  lemma BackslashNameIsEvidence(tail: Bytes)
    ensures var path := EVIDENCE_DIRECTORY[4 := BACKSLASH] + [BACKSLASH] + tail;
      EvidenceOutput(path) && !UnderEvidence(path)
  {
    var dir := EVIDENCE_DIRECTORY;
    var path := dir[4 := BACKSLASH] + [BACKSLASH] + tail;
    assert path[0] != BYTE_ORDER_MARK[0] && path[4] != dir[4];
    assert Normalized(path)[..|dir| + 1] == dir + [SLASH];
  }

  /** The character at a place of a path, a slash written either way. */
  predicate Reads(b: Byte, c: char) { b == c as int || (c == '/' && b == 0x5C) }

  /** The path spells the directory, with slashes written either way, and ends there or goes on with a slash. */
  predicate SpellsDirectory(path: Bytes) {
    && |path| >= 22 && (forall i :: 0 <= i < 22 ==> Reads(path[i], "docs/evidence-verdicts"[i]))
    && (|path| == 22 || Reads(path[22], '/'))
  }

  /** Which paths count as evidence output: those spelling the directory, behind a byte order mark or not. */
  lemma EvidenceOutputMeaning(path: Bytes)
    ensures EvidenceOutput(path) <==>
      SpellsDirectory(if |path| >= 3 && path[0] == 0xEF && path[1] == 0xBB && path[2] == 0xBF then path[3..] else path)
  {
    var body := if BYTE_ORDER_MARK <= path then path[3..] else path;
    assert BYTE_ORDER_MARK <= path <==> |path| >= 3 && path[0] == 0xEF && path[1] == 0xBB && path[2] == 0xBF;
    SpelledDirectory(body, Normalized(path));
    hide Normalized, SpellsDirectory, UnderEvidence;
  }

  lemma SpelledDirectory(body: Bytes, normal: Bytes)
    requires |normal| == |body|
    requires forall i :: 0 <= i < |body| ==> normal[i] == if body[i] == BACKSLASH then SLASH else body[i]
    ensures UnderEvidence(normal) <==> SpellsDirectory(body)
  {
    var dir := EVIDENCE_DIRECTORY;
    DirectoryBytes();
    hide EVIDENCE_DIRECTORY;
    if |body| >= 22 {
      assert forall i :: 0 <= i < 22 ==> (Reads(body[i], "docs/evidence-verdicts"[i]) <==> normal[i] == dir[i]);
      assert (forall i :: 0 <= i < 22 ==> normal[i] == dir[i]) <==> normal[..22] == dir;
    }
    if |body| > 22 {
      assert dir + [SLASH] <= normal <==> normal[..22] == dir && normal[22] == SLASH by {
        if dir + [SLASH] <= normal { assert normal[..23] == dir + [SLASH]; assert normal[..22] == normal[..23][..22]; }
        if normal[..22] == dir && normal[22] == SLASH { assert normal[..23] == normal[..22] + [normal[22]]; }
      }
    }
  }

  lemma DirectoryBytes()
    ensures |EVIDENCE_DIRECTORY| == 22 == |"docs/evidence-verdicts"|
    ensures forall i :: 0 <= i < 22 ==> EVIDENCE_DIRECTORY[i] == "docs/evidence-verdicts"[i] as int
    ensures BACKSLASH !in EVIDENCE_DIRECTORY
  {
  }

  // ---------------------------------------------------------------- NUL-separated lists

  predicate NulFree(name: Bytes) { 0 !in name }

  ghost predicate AllNulFree(names: seq<Bytes>) { forall i :: 0 <= i < |names| ==> NulFree(names[i]) }

  function Terminated(names: seq<Bytes>): Bytes {
    if names == [] then [] else names[0] + [0] + Terminated(names[1..])
  }

  function NulIndex(value: Bytes): (k: nat)
    ensures k <= |value|
    ensures k < |value| ==> value[k] == 0
    ensures forall j :: 0 <= j < k ==> value[j] != 0
  {
    if value == [] || value[0] == 0 then 0 else 1 + NulIndex(value[1..])
  }

  function Parts(value: Bytes): seq<Bytes> {
    var k := NulIndex(value);
    if value == [] then [] else if k == |value| then [value] else [value[..k]] + Parts(value[k + 1..])
  }

  lemma {:induction false} FirstNul(value: Bytes, k: nat)
    requires k <= |value| && (forall j :: 0 <= j < k ==> value[j] != 0) && (k < |value| ==> value[k] == 0)
    ensures NulIndex(value) == k
  {
    if k > 0 { FirstNul(value[1..], k - 1); }
  }

  lemma PartsBeforeNul(value: Bytes, k: nat)
    requires k < |value| && value[k] == 0 && forall j :: 0 <= j < k ==> value[j] != 0
    ensures Parts(value) == [value[..k]] + Parts(value[k + 1..])
  {
    FirstNul(value, k);
  }

  lemma PartsAtNul(value: Bytes, start: nat, index: nat)
    requires start <= index < |value| && value[index] == 0 && forall j :: start <= j < index ==> value[j] != 0
    ensures Parts(value[start..]) == [value[start..index]] + Parts(value[index + 1..])
  {
    hide Parts;
    PartsBeforeNul(value[start..], index - start);
    assert value[start..][..index - start] == value[start..index];
    assert value[start..][index - start + 1..] == value[index + 1..];
  }

  /** Cuts a buffer after every NUL; what follows the last one is a part of its own unless it is empty. */
  method SplitNul(value: Bytes) returns (result: seq<Bytes>)
    ensures result == Parts(value)
  {
    hide Parts;
    result := [];
    var start := 0;
    assert value[0..] == value;
    for index := 0 to |value|
      invariant 0 <= start <= index
      invariant forall j :: start <= j < index ==> value[j] != 0
      invariant result + Parts(value[start..]) == Parts(value)
    {
      if value[index] == 0 {
        PartsAtNul(value, start, index);
        result := result + [value[start..index]];
        start := index + 1;
      }
    }
    LastPart(value[start..]);
    if start < |value| {
      result := result + [value[start..]];
    }
  }

  lemma LastPart(value: Bytes)
    requires NulFree(value)
    ensures Parts(value) == if value == [] then [] else [value]
  {
    FirstNul(value, |value|);
  }

  /** Splitting undoes the NUL-terminated form of any list of NUL-free names. */
  lemma {:induction false} PartsOfTerminated(names: seq<Bytes>)
    requires AllNulFree(names)
    ensures Parts(Terminated(names)) == names
  {
    if names != [] {
      var (name, rest) := (names[0], Terminated(names[1..]));
      assert NulFree(name) && Terminated(names) == name + [0] + rest;
      hide Parts, Terminated;
      PartsBeforeNul(name + [0] + rest, |name|);
      assert (name + [0] + rest)[..|name|] == name && (name + [0] + rest)[|name| + 1..] == rest;
      PartsOfTerminated(names[1..]);
      assert names == [name] + names[1..];
    }
  }

  // ---------------------------------------------------------------- what Git reports

  /** The three questions asked of Git; a failed process is None, or false for the ancestor test. */
  datatype Git = Git(
    isAncestor: (nat, nat) -> bool,
    revList: (nat, nat) -> Option<seq<seq<nat>>>,
    diff: (nat, nat) -> Option<Bytes>)

  /** Each line is a commit of the range followed by its parents, and every commit of the range has one. */
  ghost predicate ListsRange<B>(h: History<B>, recorded: nat, current: nat, lines: seq<seq<nat>>)
    requires Acyclic(h) && recorded < |h| && current < |h|
  {
    && (forall i :: 0 <= i < |lines| ==> LineOf(h, recorded, current, lines[i]))
    && (forall c: nat | c < |h| && InRange(h, recorded, current, c) :: [c] + h[c].parents in lines)
  }

  ghost predicate LineOf<B>(h: History<B>, recorded: nat, current: nat, line: seq<nat>)
    requires Acyclic(h) && recorded < |h| && current < |h|
  {
    line != [] && line[0] < |h| && line[1..] == h[line[0]].parents && InRange(h, recorded, current, line[0])
  }

  ghost predicate NamesDifferences<B(!new)>(a: map<Bytes, B>, b: map<Bytes, B>, names: seq<Bytes>) {
    AllNulFree(names) && forall path :: path in names <==> Differs(a, b, path)
  }

  ghost predicate ListsDifferences<B(!new)>(a: map<Bytes, B>, b: map<Bytes, B>, output: Bytes) {
    exists names :: output == Terminated(names) && NamesDifferences(a, b, names)
  }

  /** Whatever Git answers is true of the history. */
  ghost predicate Truthful<B(!new)>(git: Git, h: History<B>)
    requires Acyclic(h)
  {
    && (forall r: nat, c: nat | r < |h| && c < |h| && git.isAncestor(r, c) :: Reaches(h, c, r))
    && (forall r: nat, c: nat | r < |h| && c < |h| && git.revList(r, c).Some? ::
          ListsRange(h, r, c, git.revList(r, c).value))
    && (forall p: nat, c: nat | p < |h| && c < |h| && git.diff(p, c).Some? ::
          ListsDifferences(h[p].tree, h[c].tree, git.diff(p, c).value))
  }

  /** Git answers every question about the history. */
  ghost predicate Answers<B(!new)>(git: Git, h: History<B>)
    requires Acyclic(h)
  {
    && (forall r: nat, c: nat | r < |h| && c < |h| && Reaches(h, c, r) :: git.isAncestor(r, c))
    && (forall r: nat, c: nat | r < |h| && c < |h| :: git.revList(r, c).Some?)
    && (forall p: nat, c: nat | p < |h| && c < |h| :: git.diff(p, c).Some?)
  }

  // ---------------------------------------------------------------- the check

  ghost predicate OnlyEvidence(paths: seq<Bytes>) {
    forall i :: 0 <= i < |paths| ==> |paths[i]| > 0 ==> EvidenceOutput(paths[i])
  }

  ghost predicate EdgeAccepted(git: Git, parent: nat, commit: nat) {
    git.diff(parent, commit).Some? && OnlyEvidence(Parts(git.diff(parent, commit).value))
  }

  ghost predicate LineAccepted(git: Git, line: seq<nat>) {
    |line| > 1 && forall i :: 1 <= i < |line| ==> EdgeAccepted(git, line[i], line[0])
  }

  ghost predicate RangeAccepted(git: Git, recorded: nat, current: nat) {
    var lines := git.revList(recorded, current);
    lines.Some? && forall i :: 0 <= i < |lines.value| ==> LineAccepted(git, lines.value[i])
  }

  /** Walks every parent edge of the listed commits and refuses the range at the first other path. */
  method EvidenceOnlyCommitRange(git: Git, recordedHead: nat, currentHead: nat) returns (accepted: bool)
    ensures accepted <==> RangeAccepted(git, recordedHead, currentHead)
  {
    hide Parts, EvidenceOutput;
    var revisions := git.revList(recordedHead, currentHead);
    if revisions.None? { return false; }
    for i := 0 to |revisions.value|
      invariant forall j :: 0 <= j < i ==> LineAccepted(git, revisions.value[j])
    {
      var line := revisions.value[i];
      if |line| <= 1 { return false; }
      var commit := line[0];
      for k := 1 to |line|
        invariant forall j :: 1 <= j < k ==> EdgeAccepted(git, line[j], commit)
      {
        var output := git.diff(line[k], commit);
        if output.None? { return false; }
        var paths := SplitNul(output.value);
        for p := 0 to |paths|
          invariant forall j :: 0 <= j < p ==> |paths[j]| > 0 ==> EvidenceOutput(paths[j])
        {
          if |paths[p]| > 0 && !EvidenceOutput(paths[p]) { return false; }
        }
        assert EdgeAccepted(git, line[k], commit);
      }
    }
    accepted := true;
  }

  // ---------------------------------------------------------------- what acceptance means

  ghost predicate AgreeOffEvidence<B(!new)>(a: map<Bytes, B>, b: map<Bytes, B>) {
    forall path :: Differs(a, b, path) ==> EvidenceOutput(path)
  }

  ghost predicate HarmlessCommit<B(!new)>(h: History<B>, c: nat)
    requires Acyclic(h) && c < |h|
  {
    h[c].parents != []
    && forall i :: 0 <= i < |h[c].parents| ==> AgreeOffEvidence(h[h[c].parents[i]].tree, h[c].tree)
  }

  ghost predicate HarmlessRange<B(!new)>(h: History<B>, recorded: nat, current: nat)
    requires Acyclic(h) && recorded < |h| && current < |h|
  {
    forall c: nat | c < |h| && InRange(h, recorded, current, c) :: HarmlessCommit(h, c)
  }

  lemma EdgeMeaning<B(!new)>(git: Git, h: History<B>, parent: nat, commit: nat)
    requires Acyclic(h) && NamesUsable(h) && Truthful(git, h) && parent < |h| && commit < |h|
    ensures EdgeAccepted(git, parent, commit)
      <==> git.diff(parent, commit).Some? && AgreeOffEvidence(h[parent].tree, h[commit].tree)
  {
    if git.diff(parent, commit).Some? {
      var (a, b) := (h[parent].tree, h[commit].tree);
      var names :| git.diff(parent, commit).value == Terminated(names) && NamesDifferences(a, b, names);
      PartsOfTerminated(names);
      if OnlyEvidence(names) {
        forall path | Differs(a, b, path) ensures EvidenceOutput(path) {
          assert path in names;
          assert path in a || path in b;
        }
      }
    }
  }

  lemma LineMeaning<B(!new)>(git: Git, h: History<B>, recorded: nat, current: nat, line: seq<nat>)
    requires Acyclic(h) && NamesUsable(h) && Truthful(git, h) && recorded < |h| && current < |h|
    requires LineOf(h, recorded, current, line)
    ensures LineAccepted(git, line) ==> HarmlessCommit(h, line[0])
    ensures Answers(git, h) && HarmlessCommit(h, line[0]) ==> LineAccepted(git, line)
  {
    var c := line[0];
    hide EdgeAccepted, AgreeOffEvidence;
    forall i | 0 <= i < |h[c].parents|
      ensures line[i + 1] == h[c].parents[i] < |h|
      ensures EdgeAccepted(git, h[c].parents[i], c)
        <==> git.diff(h[c].parents[i], c).Some? && AgreeOffEvidence(h[h[c].parents[i]].tree, h[c].tree)
    {
      assert line[1..][i] == line[i + 1];
      EdgeMeaning(git, h, h[c].parents[i], c);
    }
    forall k | 1 <= k < |line|
      ensures line[k] == h[c].parents[k - 1]
    {
      assert line[1..][k - 1] == line[k];
    }
  }

  /** Acceptance means that every commit of the range is harmless; when Git always answers, it means nothing less. */
  lemma RangeMeaning<B(!new)>(git: Git, h: History<B>, recorded: nat, current: nat)
    requires Acyclic(h) && NamesUsable(h) && Truthful(git, h) && recorded < |h| && current < |h|
    ensures RangeAccepted(git, recorded, current) ==> HarmlessRange(h, recorded, current)
    ensures Answers(git, h) && HarmlessRange(h, recorded, current) ==> RangeAccepted(git, recorded, current)
  {
    var lines := git.revList(recorded, current);
    if lines.Some? {
      hide LineAccepted, HarmlessCommit;
      assert ListsRange(h, recorded, current, lines.value);
      forall i | 0 <= i < |lines.value|
        ensures LineOf(h, recorded, current, lines.value[i])
        ensures LineAccepted(git, lines.value[i]) ==> HarmlessCommit(h, lines.value[i][0])
        ensures Answers(git, h) && HarmlessCommit(h, lines.value[i][0]) ==> LineAccepted(git, lines.value[i])
      {
        LineMeaning(git, h, recorded, current, lines.value[i]);
      }
      if RangeAccepted(git, recorded, current) {
        forall c: nat | c < |h| && InRange(h, recorded, current, c) ensures HarmlessCommit(h, c) {
          var i :| 0 <= i < |lines.value| && lines.value[i] == [c] + h[c].parents;
          assert lines.value[i][0] == c;
        }
      }
    }
  }

  lemma {:induction false} ReachesIsTransitive<B>(h: History<B>, a: nat, b: nat, c: nat)
    requires Acyclic(h) && a < |h| && b < |h| && Reaches(h, a, b) && Reaches(h, b, c)
    ensures Reaches(h, a, c)
    decreases a
  {
    if a != b {
      var i :| 0 <= i < |h[a].parents| && Reaches(h, h[a].parents[i], b);
      ReachesIsTransitive(h, h[a].parents[i], b, c);
    }
  }

  lemma {:induction false} ReachesBackwards<B>(h: History<B>, a: nat, b: nat)
    requires Acyclic(h) && a < |h| && Reaches(h, a, b)
    ensures b <= a
    decreases a
  {
    if a != b {
      var i :| 0 <= i < |h[a].parents| && Reaches(h, h[a].parents[i], b);
      ReachesBackwards(h, h[a].parents[i], b);
    }
  }

  lemma AgreementComposes<B(!new)>(a: map<Bytes, B>, b: map<Bytes, B>, c: map<Bytes, B>)
    requires AgreeOffEvidence(a, b) && AgreeOffEvidence(b, c)
    ensures AgreeOffEvidence(a, c)
  {
  }

  lemma {:induction false} HarmlessDescent<B(!new)>(h: History<B>, recorded: nat, current: nat, c: nat)
    requires Acyclic(h) && recorded < |h| && current < |h| && c < |h|
    requires HarmlessRange(h, recorded, current) && Reaches(h, current, c) && Reaches(h, c, recorded)
    ensures AgreeOffEvidence(h[recorded].tree, h[c].tree)
    decreases c
  {
    if c != recorded {
      if Reaches(h, recorded, c) {
        ReachesBackwards(h, recorded, c);
        ReachesBackwards(h, c, recorded);
      }
      assert HarmlessCommit(h, c);
      var i :| 0 <= i < |h[c].parents| && Reaches(h, h[c].parents[i], recorded);
      var p := h[c].parents[i];
      assert Reaches(h, p, p);
      ReachesIsTransitive(h, current, c, p);
      HarmlessDescent(h, recorded, current, p);
      AgreementComposes(h[recorded].tree, h[p].tree, h[c].tree);
    }
  }

  /**
   Old evidence survives only harmless history: across an accepted range from an ancestor the trees agree off the
   evidence paths.
   */
  lemma AcceptedRangeKeepsSource<B(!new)>(git: Git, h: History<B>, recorded: nat, current: nat)
    requires Acyclic(h) && NamesUsable(h) && Truthful(git, h) && recorded < |h| && current < |h|
    requires git.isAncestor(recorded, current) && RangeAccepted(git, recorded, current)
    ensures AgreeOffEvidence(h[recorded].tree, h[current].tree)
    ensures forall path :: PlainlyNamed(path) && !UnderEvidence(path) ==>
      !Differs(h[recorded].tree, h[current].tree, path)
  {
    RangeMeaning(git, h, recorded, current);
    HarmlessDescent(h, recorded, current, current);
    forall path | PlainlyNamed(path) && !UnderEvidence(path)
      ensures !Differs(h[recorded].tree, h[current].tree, path)
    {
      EvidenceOutputOfPlainName(path);
    }
  }

  lemma {:induction false} HarmlessRangeComposes<B(!new)>(h: History<B>, first: nat, middle: nat, last: nat)
    requires Acyclic(h) && first < |h| && middle < |h| && last < |h|
    requires HarmlessRange(h, first, middle) && HarmlessRange(h, middle, last)
    ensures HarmlessRange(h, first, last)
  {
    forall c: nat | c < |h| && InRange(h, first, last, c) ensures HarmlessCommit(h, c) {
      assert InRange(h, first, middle, c) || InRange(h, middle, last, c);
    }
  }

  // ---------------------------------------------------------------- currency of a recorded fingerprint

  datatype Fingerprint<D> = Fingerprint(baseline: D, head: nat, fileCount: int, treeDigest: D)

  /** Whether a recorded fingerprint still describes the current source. */
  method AuthoredSourceIsCurrent<D(==)>(recorded: Option<Fingerprint<D>>, current: Option<Fingerprint<D>>,
      workspaceUsable: bool, git: Git) returns (isCurrent: bool)
    ensures isCurrent <==>
      recorded.Some? && current.Some? && StillCurrent(recorded.value, current.value, workspaceUsable, git)
  {
    if recorded.None? || current.None? || recorded.value.baseline != current.value.baseline
      || recorded.value.fileCount != current.value.fileCount
      || recorded.value.treeDigest != current.value.treeDigest { return false; }
    if recorded.value.head == current.value.head { return true; }
    if !workspaceUsable || !git.isAncestor(recorded.value.head, current.value.head) { return false; }
    isCurrent := EvidenceOnlyCommitRange(git, recorded.value.head, current.value.head);
  }

  ghost predicate StillCurrent<D>(recorded: Fingerprint<D>, current: Fingerprint<D>, workspaceUsable: bool, git: Git) {
    && recorded.baseline == current.baseline && recorded.fileCount == current.fileCount
    && recorded.treeDigest == current.treeDigest
    && (recorded.head == current.head
        || (workspaceUsable && git.isAncestor(recorded.head, current.head)
            && RangeAccepted(git, recorded.head, current.head)))
  }

  /** A fingerprint that still counts has the same digest and a committed tree that agrees off the evidence paths. */
  lemma CurrentMeansSameSource<B(!new), D>(git: Git, h: History<B>, usable: bool,
      recorded: Fingerprint<D>, current: Fingerprint<D>)
    requires Acyclic(h) && NamesUsable(h) && Truthful(git, h) && recorded.head < |h| && current.head < |h|
    requires StillCurrent(recorded, current, usable, git)
    ensures recorded.(head := current.head) == current
    ensures AgreeOffEvidence(h[recorded.head].tree, h[current.head].tree)
  {
    if recorded.head != current.head {
      AcceptedRangeKeepsSource(git, h, recorded.head, current.head);
    }
  }

  /**
   When Git answers, a fingerprint still counts exactly if it differs in its head at most, and that head is an ancestor
   of the current one with only harmless commits between them.
   */
  lemma CurrentExactly<B(!new), D>(git: Git, h: History<B>, usable: bool,
      recorded: Fingerprint<D>, current: Fingerprint<D>)
    requires Acyclic(h) && NamesUsable(h) && Truthful(git, h) && Answers(git, h)
    requires recorded.head < |h| && current.head < |h|
    ensures StillCurrent(recorded, current, usable, git) <==>
      && recorded.(head := current.head) == current
      && (recorded.head == current.head
          || (usable && Reaches(h, current.head, recorded.head) && HarmlessRange(h, recorded.head, current.head)))
  {
    RangeMeaning(git, h, recorded.head, current.head);
    hide RangeAccepted, HarmlessRange;
  }

  /** Acceptance is transitive whenever Git answers: evidence carried over twice is evidence carried over once. */
  lemma CurrencyIsTransitive<B(!new), D>(git: Git, h: History<B>, usable: bool,
      first: Fingerprint<D>, middle: Fingerprint<D>, last: Fingerprint<D>)
    requires Acyclic(h) && NamesUsable(h) && Truthful(git, h) && Answers(git, h)
    requires first.head < |h| && middle.head < |h| && last.head < |h|
    requires StillCurrent(first, middle, usable, git) && StillCurrent(middle, last, usable, git)
    ensures StillCurrent(first, last, usable, git)
  {
    var (f, m, l) := (first.head, middle.head, last.head);
    if f != m && m != l {
      ReachesIsTransitive(h, l, m, f);
      RangeMeaning(git, h, f, m);
      RangeMeaning(git, h, m, l);
      HarmlessRangeComposes(h, f, m, l);
      RangeMeaning(git, h, f, l);
    }
  }

  /** The empty range is accepted, so the explicit check for equal heads only spares the questions to Git. */
  lemma RangeIsReflexive<B(!new)>(git: Git, h: History<B>, c: nat)
    requires Acyclic(h) && NamesUsable(h) && Truthful(git, h) && Answers(git, h) && c < |h|
    ensures git.isAncestor(c, c) && RangeAccepted(git, c, c)
  {
    assert Reaches(h, c, c);
    RangeMeaning(git, h, c, c);
  }

  // ---------------------------------------------------------------- what can change unnoticed

  /** An empty commit, and one that adds a file on top of it. */
  function TwoCommits(path: Bytes): History<int> { [Commit([], map[]), Commit([0], map[path := 0])] }

  /** What Git truly answers about these two commits. */
  function GitForTwo(path: Bytes): Git {
    Git((r: nat, c: nat) => r <= c,
        (r: nat, c: nat) => Some(if r < c then [[1, 0]] else []),
        (p: nat, c: nat) => Some(if p == c then [] else path + [0]))
  }

  lemma TwoCommitsReach(path: Bytes)
    ensures var h := TwoCommits(path);
      Acyclic(h) && Reaches(h, 0, 0) && Reaches(h, 1, 1) && Reaches(h, 1, 0) && !Reaches(h, 0, 1)
  {
    var h := TwoCommits(path);
    assert h[1].parents[0] == 0 && Reaches(h, 0, 0);
  }

  lemma TwoCommitsDiffer(path: Bytes, p: nat, c: nat)
    requires p < 2 && c < 2 && NulFree(path)
    ensures var h := TwoCommits(path);
      ListsDifferences(h[p].tree, h[c].tree, GitForTwo(path).diff(p, c).value)
  {
    var h := TwoCommits(path);
    var names := if p == c then [] else [path];
    assert GitForTwo(path).diff(p, c).value == Terminated(names);
    assert NamesDifferences(h[p].tree, h[c].tree, names);
  }

  lemma TwoCommitsListed(path: Bytes, r: nat, c: nat)
    requires r < 2 && c < 2
    ensures Acyclic(TwoCommits(path)) && ListsRange(TwoCommits(path), r, c, GitForTwo(path).revList(r, c).value)
  {
    TwoCommitsReach(path);
    var h := TwoCommits(path);
    var lines := GitForTwo(path).revList(r, c).value;
    assert lines == if r < c then [[1, 0]] else [];
    assert [1, 0][1..] == [0] && [1] + h[1].parents == [1, 0];
    if r < c { assert LineOf(h, r, c, lines[0]); }
  }

  lemma GitForTwoIsTruthful(path: Bytes)
    requires path != [] && NulFree(path)
    ensures var h := TwoCommits(path);
      Acyclic(h) && NamesUsable(h) && Truthful(GitForTwo(path), h) && Answers(GitForTwo(path), h)
  {
    TwoCommitsReach(path);
    var (h, git) := (TwoCommits(path), GitForTwo(path));
    hide ListsRange, ListsDifferences;
    forall r: nat, c: nat | r < |h| && c < |h| && git.revList(r, c).Some?
      ensures ListsRange(h, r, c, git.revList(r, c).value)
    {
      TwoCommitsListed(path, r, c);
    }
    forall p: nat, c: nat | p < |h| && c < |h| && git.diff(p, c).Some?
      ensures ListsDifferences(h[p].tree, h[c].tree, git.diff(p, c).value)
    {
      TwoCommitsDiffer(path, p, c);
    }
  }

  /** A commit that adds an evidence output to an empty one passes the check, whatever directory the file is in. */
  lemma EvidenceChangePasses(path: Bytes)
    requires path != [] && NulFree(path) && EvidenceOutput(path)
    ensures GitForTwo(path).isAncestor(0, 1) && RangeAccepted(GitForTwo(path), 0, 1)
    ensures Differs(TwoCommits(path)[0].tree, TwoCommits(path)[1].tree, path)
  {
    var git := GitForTwo(path);
    PartsOfTerminated([path]);
    assert Terminated([path]) == path + [0];
    assert EdgeAccepted(git, 0, 1);
    assert LineAccepted(git, [1, 0]);
  }

  /** Whether acceptance rules out a difference on the path, in one history with what Git answers about it. */
  ghost predicate PathKept<B(!new)>(git: Git, h: History<B>, recorded: nat, current: nat, path: Bytes) {
    Acyclic(h) && NamesUsable(h) && Truthful(git, h) && recorded < |h| && current < |h|
    && git.isAncestor(recorded, current) && RangeAccepted(git, recorded, current) ==>
      !Differs(h[recorded].tree, h[current].tree, path)
  }

  /**
   A path is unchanged across every accepted range, in every history, exactly when it does not pass for evidence
   output.
   */
  lemma KeptExactlyOffEvidence(path: Bytes)
    requires path != [] && NulFree(path)
    ensures (forall git, h: History<int>, recorded: nat, current: nat :: PathKept(git, h, recorded, current, path))
      <==> !EvidenceOutput(path)
  {
    hide RangeAccepted, EvidenceOutput, Truthful;
    if EvidenceOutput(path) {
      EvidenceChangePasses(path);
      GitForTwoIsTruthful(path);
      assert !PathKept(GitForTwo(path), TwoCommits(path), 0, 1, path);
    } else {
      forall git, h: History<int>, recorded: nat, current: nat ensures PathKept(git, h, recorded, current, path) {
        OffEvidenceIsKept(git, h, recorded, current, path);
      }
    }
  }

  lemma OffEvidenceIsKept<B(!new)>(git: Git, h: History<B>, recorded: nat, current: nat, path: Bytes)
    requires !EvidenceOutput(path)
    ensures PathKept(git, h, recorded, current, path)
  {
    hide RangeAccepted, EvidenceOutput, Truthful;
    if Acyclic(h) && NamesUsable(h) && Truthful(git, h) && recorded < |h| && current < |h|
      && git.isAncestor(recorded, current) && RangeAccepted(git, recorded, current) {
      AcceptedRangeKeepsSource(git, h, recorded, current);
    }
  }

  /**
   So a root file whose name spells the directory with backslashes may change, though it lies outside the directory.
   */
  lemma DisguisedChangePasses()
    ensures var path := EVIDENCE_DIRECTORY[4 := BACKSLASH] + [BACKSLASH];
      && !UnderEvidence(path) && Differs(TwoCommits(path)[0].tree, TwoCommits(path)[1].tree, path)
      && Acyclic(TwoCommits(path)) && Truthful(GitForTwo(path), TwoCommits(path))
      && GitForTwo(path).isAncestor(0, 1) && RangeAccepted(GitForTwo(path), 0, 1)
  {
    var path := EVIDENCE_DIRECTORY[4 := BACKSLASH] + [BACKSLASH];
    BackslashNameIsEvidence([]);
    assert path + [] == path;
    assert NulFree(path);
    hide RangeAccepted, Truthful, Differs, EvidenceOutput;
    EvidenceChangePasses(path);
    GitForTwoIsTruthful(path);
  }
}
