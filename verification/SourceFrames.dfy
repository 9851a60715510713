/**
 The byte stream hashed for an authored source tree: four length-framed fields per entry, and the decoder that reads
 it back.
 */
module SourceFrames {
  import opened Numerals
  import opened Options

  type Byte = b: int | 0 <= b < 0x100
  type Bytes = seq<Byte>

  const COLON: Byte := 0x3A
  const SEMICOLON: Byte := 0x3B
  const MISSING: Bytes := [0x6D, 0x69, 0x73, 0x73, 0x69, 0x6E, 0x67]
  const SYMLINK: Bytes := [0x73, 0x79, 0x6D, 0x6C, 0x69, 0x6E, 0x6B]
  const FILE: Bytes := [0x66, 0x69, 0x6C, 0x65]
  const MODE_LINK: Bytes := [0x31, 0x32, 0x30, 0x30, 0x30, 0x30]
  const MODE_PLAIN: Bytes := [0x31, 0x30, 0x30, 0x36, 0x34, 0x34]
  const MODE_EXECUTABLE: Bytes := [0x31, 0x30, 0x30, 0x37, 0x35, 0x35]

  const MAX_FILE_BYTES := 2097152
  const MAX_TREE_BYTES := 67108864

  /** One listed path and what the tree holds there. */
  datatype Entry = Entry(path: Bytes, node: TreeNode)

  datatype TreeNode = Missing | Symlink(target: Bytes) | Regular(executable: bool, content: Bytes)

  // ---------------------------------------------------------------- framing

  function DigitBytes(ds: seq<Digit>): (bs: Bytes)
    ensures |bs| == |ds|
  {
    seq<Byte>(|ds|, i requires 0 <= i < |ds| => DigitByte(ds[i]))
  }

  function DigitByte(d: Digit): Byte { 0x30 + d }

  /** Decimal length, colon, the bytes, semicolon. */
  function Frame(value: Bytes): Bytes { DigitBytes(Digits(|value|)) + [COLON] + value + [SEMICOLON] }

  function Mode(node: TreeNode): Bytes {
    match node
    case Missing => MISSING
    case Symlink(_) => MODE_LINK
    case Regular(executable, _) => if executable then MODE_EXECUTABLE else MODE_PLAIN
  }

  function Kind(node: TreeNode): Bytes {
    match node
    case Missing => MISSING
    case Symlink(_) => SYMLINK
    case Regular(_, _) => FILE
  }

  function Content(node: TreeNode): Bytes {
    match node
    case Missing => []
    case Symlink(target) => target
    case Regular(_, content) => content
  }

  function EncodeEntry(e: Entry): Bytes {
    Frame(e.path) + Frame(Mode(e.node)) + Frame(Kind(e.node)) + Frame(Content(e.node))
  }

  function EncodeAll(es: seq<Entry>): Bytes {
    if es == [] then [] else EncodeAll(es[..|es| - 1]) + EncodeEntry(es[|es| - 1])
  }

  /** Text in the ASCII range as bytes. */
  function Ascii(s: string): (bs: Bytes)
    requires forall i :: 0 <= i < |s| ==> s[i] < 128 as char
    ensures |bs| == |s|
  {
    seq<Byte>(|s|, i requires 0 <= i < |s| => s[i] as int)
  }

  lemma ShortFrame(value: Bytes)
    requires |value| < 10
    ensures Frame(value) == [0x30 + |value|, 0x3A] + value + [0x3B]
  {
    var ds := Digits(|value|);
    assert DigitBytes(ds) == [0x30 + |value|];
    hide Digits, DigitBytes;
  }

  lemma ModeFrames()
    ensures Frame(MODE_LINK) == Ascii("6:120000;") && Frame(MODE_PLAIN) == Ascii("6:100644;")
    ensures Frame(MODE_EXECUTABLE) == Ascii("6:100755;")
  {
    ShortFrame(MODE_LINK);
    ShortFrame(MODE_PLAIN);
    ShortFrame(MODE_EXECUTABLE);
    hide Frame;
  }

  lemma KindFrames()
    ensures Frame(MISSING) == Ascii("7:missing;") && Frame(SYMLINK) == Ascii("7:symlink;")
    ensures Frame(FILE) == Ascii("4:file;")
  {
    ShortFrame(MISSING);
    ShortFrame(SYMLINK);
    ShortFrame(FILE);
    hide Frame;
  }

  /** The bytes of an entry around its path and content, as they stand in the stream. */
  lemma EntryBytes(e: Entry)
    ensures EncodeEntry(e)
         == Frame(e.path)
            + (match e.node
               case Missing => Ascii("7:missing;") + Ascii("7:missing;")
               case Symlink(_) => Ascii("6:120000;") + Ascii("7:symlink;")
               case Regular(false, _) => Ascii("6:100644;") + Ascii("4:file;")
               case Regular(true, _) => Ascii("6:100755;") + Ascii("4:file;"))
            + Frame(match e.node
                    case Missing => []
                    case Symlink(target) => target
                    case Regular(_, content) => content)
  {
    ModeFrames();
    KindFrames();
    hide Frame, Ascii, MISSING, SYMLINK, FILE, MODE_LINK, MODE_PLAIN, MODE_EXECUTABLE;
    var (path, mode, kind) := (Frame(e.path), Frame(Mode(e.node)), Frame(Kind(e.node)));
    assert path + mode + kind == path + (mode + kind);
  }

  // ---------------------------------------------------------------- decoding

  predicate IsDigit(b: Byte) { 0x30 <= b <= 0x39 }

  function ReadDigits(s: Bytes): (r: (seq<Digit>, Bytes))
    ensures |r.0| + |r.1| == |s|
  {
    if s == [] || !IsDigit(s[0]) then ([], s)
    else var (ds, rest) := ReadDigits(s[1..]); ([s[0] - 0x30] + ds, rest)
  }

  function ReadFrame(s: Bytes): (r: Option<(Bytes, Bytes)>)
    ensures r.Some? ==> |r.value.1| < |s|
  {
    var (ds, rest) := ReadDigits(s);
    var n := Value(ds);
    if |rest| < n + 2 || rest[0] != COLON || rest[n + 1] != SEMICOLON then None
    else Some((rest[1..n + 1], rest[n + 2..]))
  }

  function NodeOf(mode: Bytes, kind: Bytes, content: Bytes): Option<TreeNode> {
    if kind == MISSING && mode == MISSING && content == [] then Some(Missing)
    else if kind == SYMLINK && mode == MODE_LINK then Some(Symlink(content))
    else if kind == FILE && mode == MODE_PLAIN then Some(Regular(false, content))
    else if kind == FILE && mode == MODE_EXECUTABLE then Some(Regular(true, content))
    else None
  }

  function ReadEntry(s: Bytes): (r: Option<(Entry, Bytes)>)
    ensures r.Some? ==> |r.value.1| < |s|
  {
    match ReadFrame(s)
    case None => None
    case Some((path, s1)) =>
      match ReadFrame(s1)
      case None => None
      case Some((mode, s2)) =>
        match ReadFrame(s2)
        case None => None
        case Some((kind, s3)) =>
          match ReadFrame(s3)
          case None => None
          case Some((content, rest)) =>
            match NodeOf(mode, kind, content)
            case None => None
            case Some(node) => Some((Entry(path, node), rest))
  }

  function DecodeAll(s: Bytes): Option<seq<Entry>>
    decreases |s|
  {
    if s == [] then Some([])
    else
      match ReadEntry(s)
      case None => None
      case Some((e, rest)) =>
        match DecodeAll(rest)
        case None => None
        case Some(es) => Some([e] + es)
  }

  // ---------------------------------------------------------------- decoding undoes encoding

  lemma {:induction false} ReadDigitBytes(ds: seq<Digit>, rest: Bytes)
    requires rest == [] || !IsDigit(rest[0])
    ensures ReadDigits(DigitBytes(ds) + rest) == (ds, rest)
    decreases |ds|
  {
    if ds == [] {
      assert DigitBytes(ds) + rest == rest;
    } else {
      ReadDigitBytes(ds[1..], rest);
      assert (DigitBytes(ds) + rest)[1..] == DigitBytes(ds[1..]) + rest;
      assert ds == [ds[0]] + ds[1..];
    }
  }

  lemma ReadBackFrame(value: Bytes, rest: Bytes)
    ensures ReadFrame(Frame(value) + rest) == Some((value, rest))
  {
    var ds := Digits(|value|);
    var tail := [COLON] + value + [SEMICOLON] + rest;
    assert Frame(value) + rest == DigitBytes(ds) + tail;
    ReadDigitBytes(ds, tail);
    ValueOfDigits(|value|);
    assert tail[1..|value| + 1] == value && tail[|value| + 2..] == rest;
  }

  lemma ReadBackNode(node: TreeNode)
    ensures NodeOf(Mode(node), Kind(node), Content(node)) == Some(node)
  {
    assert MISSING[0] != SYMLINK[0] && |FILE| != |MISSING| && |FILE| != |SYMLINK|
      && MODE_PLAIN[3] != MODE_EXECUTABLE[3];
  }

  lemma FourFrames(a: Bytes, b: Bytes, c: Bytes, d: Bytes, rest: Bytes)
    ensures a + b + c + d + rest == a + (b + (c + (d + rest)))
  {
  }

  lemma ReadBackEntry(e: Entry, rest: Bytes)
    ensures ReadEntry(EncodeEntry(e) + rest) == Some((e, rest))
  {
    hide Frame, ReadFrame, NodeOf, Mode, Kind, Content;
    var (a, b, c, d) := (Frame(e.path), Frame(Mode(e.node)), Frame(Kind(e.node)), Frame(Content(e.node)));
    FourFrames(a, b, c, d, rest);
    ReadBackFrame(e.path, b + (c + (d + rest)));
    ReadBackFrame(Mode(e.node), c + (d + rest));
    ReadBackFrame(Kind(e.node), d + rest);
    ReadBackFrame(Content(e.node), rest);
    ReadBackNode(e.node);
  }

  function EncodeFrom(es: seq<Entry>): Bytes {
    if es == [] then [] else EncodeEntry(es[0]) + EncodeFrom(es[1..])
  }

  lemma {:induction false} EncodeFromAppend(es: seq<Entry>, e: Entry)
    ensures EncodeFrom(es + [e]) == EncodeFrom(es) + EncodeEntry(e)
  {
    hide EncodeEntry;
    if es == [] {
      assert [e][1..] == [] && es + [e] == [e];
    } else {
      EncodeFromAppend(es[1..], e);
      assert (es + [e])[1..] == es[1..] + [e];
      assert EncodeEntry(es[0]) + (EncodeFrom(es[1..]) + EncodeEntry(e))
        == EncodeEntry(es[0]) + EncodeFrom(es[1..]) + EncodeEntry(e);
    }
  }

  lemma {:induction false} EncodedFromFront(es: seq<Entry>)
    ensures EncodeAll(es) == EncodeFrom(es)
    decreases |es|
  {
    hide EncodeEntry;
    if es != [] {
      EncodedFromFront(es[..|es| - 1]);
      EncodeFromAppend(es[..|es| - 1], es[|es| - 1]);
      assert es == es[..|es| - 1] + [es[|es| - 1]];
    }
  }

  lemma DecodeStep(s: Bytes, e: Entry, rest: Bytes, es: seq<Entry>)
    requires ReadEntry(s) == Some((e, rest)) && DecodeAll(rest) == Some(es)
    ensures DecodeAll(s) == Some([e] + es)
  {
    hide ReadEntry;
  }

  lemma DecodeNothing()
    ensures DecodeAll(EncodeFrom([])) == Some([])
  {
  }

  lemma {:induction false} DecodeEncodedFrom(es: seq<Entry>)
    ensures DecodeAll(EncodeFrom(es)) == Some(es)
  {
    hide EncodeEntry, ReadEntry, DecodeAll;
    if es == [] {
      DecodeNothing();
    } else {
      var rest := EncodeFrom(es[1..]);
      ReadBackEntry(es[0], rest);
      DecodeEncodedFrom(es[1..]);
      DecodeStep(EncodeEntry(es[0]) + rest, es[0], rest, es[1..]);
      assert es == [es[0]] + es[1..];
    }
  }

  /** The decoder recovers every entry list from its byte stream. */
  lemma DecodeUndoesEncode(es: seq<Entry>)
    ensures DecodeAll(EncodeAll(es)) == Some(es)
  {
    EncodedFromFront(es);
    DecodeEncodedFrom(es);
  }

  ghost predicate CollisionFree<D(!new)>(hash: Bytes -> D) { forall a, b :: hash(a) == hash(b) ==> a == b }

  /** With a collision-free hash equal digests mean equal source trees, and conversely. */
  lemma DigestIdentifiesTree<D(!new)>(hash: Bytes -> D, es: seq<Entry>, es': seq<Entry>)
    requires CollisionFree(hash)
    ensures hash(EncodeAll(es)) == hash(EncodeAll(es')) <==> es == es'
  {
    DecodeUndoesEncode(es);
    DecodeUndoesEncode(es');
  }

  // ---------------------------------------------------------------- writing the stream

  /** How reading a regular file went: its size before, the chunks read, and whether it stayed the same file. */
  datatype FileRead = FileRead(size: nat, sameWhenOpened: bool, chunks: seq<Bytes>, sameAtEnd: bool)

  /** What the file system says about a listed path. */
  datatype Status =
    | Absent
    | Link(target: Bytes, stable: bool)
    | Plain(executable: bool, singleLink: bool, read: FileRead)
    | Other

  function Joined(chunks: seq<Bytes>): Bytes {
    if chunks == [] then [] else Joined(chunks[..|chunks| - 1]) + chunks[|chunks| - 1]
  }

  /** A read never returns an empty chunk before the end of the file. */
  predicate ChunksNonEmpty(chunks: seq<Bytes>) { forall c :: c in chunks ==> c != [] }

  ghost predicate CompleteRead(read: FileRead) {
    read.sameWhenOpened && read.sameAtEnd && |Joined(read.chunks)| == read.size <= MAX_FILE_BYTES
  }

  lemma {:induction false} JoinedGrows(chunks: seq<Bytes>, i: nat)
    requires i <= |chunks|
    ensures |Joined(chunks[..i])| <= |Joined(chunks)|
    decreases |chunks|
  {
    if i == |chunks| {
      assert chunks[..i] == chunks;
    } else {
      JoinedGrows(chunks[..|chunks| - 1], i);
      assert chunks[..|chunks| - 1][..i] == chunks[..i];
    }
  }

  /** Streams a file as one frame, chunk by chunk; an incomplete or unstable read is refused. */
  method UpdateFileContentFrame(stream: Bytes, read: FileRead) returns (ok: bool, updated: Bytes)
    requires read.size <= MAX_FILE_BYTES && ChunksNonEmpty(read.chunks)
    ensures ok <==> CompleteRead(read)
    ensures ok ==> updated == stream + Frame(Joined(read.chunks))
  {
    if !read.sameWhenOpened { return false, stream; }
    updated := stream + (DigitBytes(Digits(read.size)) + [COLON]);
    var total := 0;
    var next := 0;
    while total <= MAX_FILE_BYTES
      invariant 0 <= next <= |read.chunks| && total <= MAX_FILE_BYTES
      invariant total == |Joined(read.chunks[..next])|
      invariant updated == stream + (DigitBytes(Digits(read.size)) + [COLON]) + Joined(read.chunks[..next])
      decreases |read.chunks| - next
    {
      if next == |read.chunks| { break; }
      var chunk := read.chunks[next];
      assert read.chunks[..next + 1][..next] == read.chunks[..next];
      total := total + |chunk|;
      next := next + 1;
      if total > MAX_FILE_BYTES {
        JoinedGrows(read.chunks, next);
        return false, updated;
      }
      updated := updated + chunk;
    }
    assert read.chunks[..|read.chunks|] == read.chunks;
    if !read.sameAtEnd || total != read.size { return false, updated; }
    updated := updated + [SEMICOLON];
    ok := true;
  }

  /** The three frames every entry starts with. */
  method UpdateEntryFrames(stream: Bytes, path: Bytes, mode: Bytes, kind: Bytes) returns (updated: Bytes)
    ensures updated == stream + (Frame(path) + Frame(mode) + Frame(kind))
  {
    updated := stream + Frame(path);
    updated := updated + Frame(mode);
    updated := updated + Frame(kind);
  }

  function NodeFor(status: Status): TreeNode
    requires !status.Other?
  {
    match status
    case Absent => Missing
    case Link(target, _) => Symlink(target)
    case Plain(executable, _, read) => Regular(executable, Joined(read.chunks))
  }

  type Listing = seq<(Bytes, Status)>

  ghost predicate Usable(status: Status) {
    match status
    case Absent => true
    case Link(target, stable) => stable && |target| <= MAX_FILE_BYTES
    case Plain(_, singleLink, read) => singleLink && CompleteRead(read)
    case Other => false
  }

  ghost predicate AllUsable(listing: Listing) { forall i :: 0 <= i < |listing| ==> Usable(listing[i].1) }

  ghost function EntriesOf(listing: Listing): (es: seq<Entry>)
    requires AllUsable(listing)
    ensures |es| == |listing|
  {
    seq(|listing|, i requires 0 <= i < |listing| => Entry(listing[i].0, NodeFor(listing[i].1)))
  }

  function TreeBytes(es: seq<Entry>): nat {
    if es == [] then 0 else TreeBytes(es[..|es| - 1]) + |Content(es[|es| - 1].node)|
  }

  ghost predicate ReadsWellFormed(listing: Listing) {
    forall i :: 0 <= i < |listing| ==> listing[i].1.Plain? ==> ChunksNonEmpty(listing[i].1.read.chunks)
  }

  lemma EntriesPrefix(listing: Listing, i: nat)
    requires i < |listing| && AllUsable(listing[..i + 1])
    ensures AllUsable(listing[..i])
    ensures EntriesOf(listing[..i + 1]) == EntriesOf(listing[..i]) + [Entry(listing[i].0, NodeFor(listing[i].1))]
  {
    assert forall k :: 0 <= k < i ==> listing[..i][k] == listing[..i + 1][k];
  }

  lemma {:induction false} TreeBytesGrow(listing: Listing, i: nat)
    requires AllUsable(listing) && i <= |listing|
    ensures AllUsable(listing[..i])
    ensures TreeBytes(EntriesOf(listing[..i])) <= TreeBytes(EntriesOf(listing))
    decreases |listing| - i
  {
    if i == |listing| {
      assert listing[..i] == listing;
    } else {
      TreeBytesGrow(listing, i + 1);
      EntriesPrefix(listing, i);
      TreeBytesStep(EntriesOf(listing[..i]), Entry(listing[i].0, NodeFor(listing[i].1)));
    }
  }

  lemma TreeBytesStep(es: seq<Entry>, e: Entry)
    ensures TreeBytes(es + [e]) == TreeBytes(es) + |Content(e.node)|
    ensures EncodeAll(es + [e]) == EncodeAll(es) + EncodeEntry(e)
  {
    assert (es + [e])[..|es|] == es;
  }

  lemma OneTooMany(listing: Listing, i: nat)
    requires i < |listing| && AllUsable(listing)
    ensures AllUsable(listing[..i])
    ensures TreeBytes(EntriesOf(listing[..i])) + |Content(NodeFor(listing[i].1))| <= TreeBytes(EntriesOf(listing))
  {
    EntriesPrefix(listing, i);
    TreeBytesGrow(listing, i + 1);
    TreeBytesStep(EntriesOf(listing[..i]), Entry(listing[i].0, NodeFor(listing[i].1)));
  }

  lemma ExtendStream(listing: Listing, i: nat)
    requires i < |listing| && AllUsable(listing[..i]) && Usable(listing[i].1)
    ensures AllUsable(listing[..i + 1])
    ensures var e := Entry(listing[i].0, NodeFor(listing[i].1));
      && TreeBytes(EntriesOf(listing[..i + 1])) == TreeBytes(EntriesOf(listing[..i])) + |Content(e.node)|
      && EncodeAll(EntriesOf(listing[..i + 1])) == EncodeAll(EntriesOf(listing[..i])) + EncodeEntry(e)
  {
    assert listing[..i + 1] == listing[..i] + [listing[i]];
    EntriesPrefix(listing, i);
    TreeBytesStep(EntriesOf(listing[..i]), Entry(listing[i].0, NodeFor(listing[i].1)));
  }

  ghost predicate Digestible(listing: Listing) {
    AllUsable(listing) && TreeBytes(EntriesOf(listing)) <= MAX_TREE_BYTES
  }

  /** One turn of the loop: the checks on a path, the budget, and its four frames. */
  method UpdateEntry(stream: Bytes, totalBytes: nat, path: Bytes, status: Status)
    returns (ok: bool, updated: Bytes, newTotal: nat)
    requires status.Plain? ==> ChunksNonEmpty(status.read.chunks)
    requires totalBytes <= MAX_TREE_BYTES
    ensures ok <==> Usable(status) && totalBytes + |Content(NodeFor(status))| <= MAX_TREE_BYTES
    ensures ok ==> newTotal == totalBytes + |Content(NodeFor(status))|
    ensures ok ==> updated == stream + EncodeEntry(Entry(path, NodeFor(status)))
  {
    hide Frame;
    ok, updated, newTotal := false, stream, totalBytes;
    match status {
      case Absent =>
        updated := UpdateEntryFrames(stream, path, MISSING, MISSING);
        updated := updated + Frame([]);
      case Link(target, stable) =>
        if !stable || |target| > MAX_FILE_BYTES { return; }
        newTotal := totalBytes + |target|;
        if newTotal > MAX_TREE_BYTES { return; }
        updated := UpdateEntryFrames(stream, path, MODE_LINK, SYMLINK);
        updated := updated + Frame(target);
      case Plain(executable, singleLink, read) =>
        if !singleLink || read.size > MAX_FILE_BYTES { return; }
        newTotal := totalBytes + read.size;
        if newTotal > MAX_TREE_BYTES { return; }
        updated := UpdateEntryFrames(stream, path, if executable then MODE_EXECUTABLE else MODE_PLAIN, FILE);
        var complete;
        complete, updated := UpdateFileContentFrame(updated, read);
        if !complete { return; }
      case Other =>
        return;
    }
    ok := true;
  }

  /**
   Hashes every listed path in turn: exactly when all are usable and together within the budget, the stream is
   theirs.
   */
  method DigestEntries<D>(hash: Bytes -> D, listing: Listing) returns (digest: Option<D>)
    requires ReadsWellFormed(listing)
    ensures digest.Some? <==> Digestible(listing)
    ensures digest.Some? ==> digest.value == hash(EncodeAll(EntriesOf(listing)))
  {
    assert EntriesOf(listing[..0]) == [] && TreeBytes([]) == 0 && EncodeAll([]) == [];
    hide EncodeEntry, TreeBytes, EncodeAll, NodeFor, Content, Usable;
    var stream: Bytes := [];
    var totalBytes := 0;
    for i := 0 to |listing|
      invariant AllUsable(listing[..i])
      invariant totalBytes == TreeBytes(EntriesOf(listing[..i])) <= MAX_TREE_BYTES
      invariant stream == EncodeAll(EntriesOf(listing[..i]))
    {
      if Digestible(listing) { OneTooMany(listing, i); }
      var ok;
      ok, stream, totalBytes := UpdateEntry(stream, totalBytes, listing[i].0, listing[i].1);
      if !ok { return None; }
      ExtendStream(listing, i);
    }
    assert listing[..|listing|] == listing;
    digest := Some(hash(stream));
  }
}
