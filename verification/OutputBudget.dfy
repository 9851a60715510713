/** The output of an attached process: two channels that share one budget of retained bytes. */
module OutputBudget {
  import opened Integers

  datatype Channel = Stdout | Stderr

  type Chunk = seq<int>

  /** What happens to an attachment: a chunk on a channel, or the deadline or an abort. */
  datatype Event = Data(channel: Channel, chunk: Chunk) | Deadline

  datatype State = State(
    stdout: seq<Chunk>, stderr: seq<Chunk>, bytes: nat, timedOut: bool, outputTruncated: bool, stopped: bool,
      kills: nat)

  function Initial(): State { State([], [], 0, false, false, false, 0) }

  /** Killing the container is tried once, however often stopping is asked for. */
  function Stop(s: State): State { if s.stopped then s else s.(stopped := true, kills := s.kills + 1) }

  function Push(s: State, channel: Channel, chunk: Chunk): State {
    if channel.Stdout? then s.(stdout := s.stdout + [chunk]) else s.(stderr := s.stderr + [chunk])
  }

  function Step(maximum: nat, s: State, e: Event): State {
    match e
    case Deadline => Stop(s.(timedOut := true))
    case Data(channel, chunk) =>
      var remaining := maximum - s.bytes;
      var s1 := if remaining > 0 then Push(s, channel, chunk[..Min(|chunk|, remaining)]) else s;
      var s2 := s1.(bytes := s.bytes + Min(|chunk|, Max(remaining, 0)));
      if |chunk| > remaining then Stop(s2.(outputTruncated := true)) else s2
  }

  function Run(maximum: nat, events: seq<Event>): State {
    if events == [] then Initial() else Step(maximum, Run(maximum, events[..|events| - 1]), events[|events| - 1])
  }

  /** The accumulator behind the event handlers. */
  class Attachment {
    const maximum: nat
    var stdout: seq<Chunk>
    var stderr: seq<Chunk>
    var bytes: nat
    var timedOut: bool
    var outputTruncated: bool
    var stopped: bool
    var kills: nat

    constructor (maximum: nat)
      ensures this.maximum == maximum && Current() == Initial()
    {
      this.maximum := maximum;
      stdout, stderr, bytes := [], [], 0;
      timedOut, outputTruncated, stopped, kills := false, false, false, 0;
    }

    function Current(): State
      reads this
    {
      State(stdout, stderr, bytes, timedOut, outputTruncated, stopped, kills)
    }

    method StopOnce()
      modifies this
      ensures Current() == Stop(old(Current()))
    {
      if stopped { return; }
      stopped := true;
      kills := kills + 1;
    }

    /** A chunk arrives: its part within the budget is kept, and anything beyond stops the process. */
    method OnData(channel: Channel, chunk: Chunk)
      modifies this
      ensures Current() == Step(maximum, old(Current()), Data(channel, chunk))
    {
      var remaining := maximum - bytes;
      if remaining > 0 {
        var part := chunk[..Min(|chunk|, remaining)];
        if channel.Stdout? { stdout := stdout + [part]; } else { stderr := stderr + [part]; }
      }
      bytes := bytes + Min(|chunk|, Max(remaining, 0));
      if |chunk| > remaining {
        outputTruncated := true;
        StopOnce();
      }
    }

    /** The deadline passes or the caller aborts. */
    method OnDeadline()
      modifies this
      ensures Current() == Step(maximum, old(Current()), Deadline)
    {
      timedOut := true;
      StopOnce();
    }
  }

  // ---------------------------------------------------------------- the stream as it arrived

  type Arrivals = seq<(Channel, int)>

  function Tagged(channel: Channel, chunk: Chunk): (r: Arrivals)
    ensures |r| == |chunk|
  {
    seq(|chunk|, i requires 0 <= i < |chunk| => (channel, chunk[i]))
  }

  /** Every byte received, in order, with its channel. */
  function Arrived(events: seq<Event>): Arrivals {
    if events == [] then []
    else
      var e := events[|events| - 1];
      Arrived(events[..|events| - 1]) + if e.Data? then Tagged(e.channel, e.chunk) else []
  }

  /** The bytes of one channel. */
  function On(channel: Channel, stream: Arrivals): seq<int> {
    if stream == [] then []
    else
      var (c, b) := stream[|stream| - 1];
      On(channel, stream[..|stream| - 1]) + if c == channel then [b] else []
  }

  function Joined(chunks: seq<Chunk>): seq<int> {
    if chunks == [] then [] else Joined(chunks[..|chunks| - 1]) + chunks[|chunks| - 1]
  }

  function Retained(s: State, channel: Channel): seq<int> { Joined(if channel.Stdout? then s.stdout else s.stderr) }

  function Take(stream: Arrivals, n: nat): Arrivals { stream[..Min(|stream|, n)] }

  // ---------------------------------------------------------------- retained bytes

  lemma {:induction false} OnConcat(channel: Channel, a: Arrivals, b: Arrivals)
    ensures On(channel, a + b) == On(channel, a) + On(channel, b)
    decreases |b|
  {
    if b == [] {
      assert a + b == a;
    } else {
      var n := |b| - 1;
      assert (a + b)[..|a + b| - 1] == a + b[..n];
      OnConcat(channel, a, b[..n]);
    }
  }

  lemma {:induction false} OnTagged(channel: Channel, tag: Channel, chunk: Chunk)
    ensures On(channel, Tagged(tag, chunk)) == if tag == channel then chunk else []
    decreases |chunk|
  {
    if chunk != [] {
      var n := |chunk| - 1;
      assert Tagged(tag, chunk)[..n] == Tagged(tag, chunk[..n]);
      OnTagged(channel, tag, chunk[..n]);
      assert chunk == chunk[..n] + [chunk[n]];
    }
  }

  lemma {:induction false} OnBothChannels(stream: Arrivals)
    ensures |On(Stdout, stream)| + |On(Stderr, stream)| == |stream|
  {
    if stream != [] { OnBothChannels(stream[..|stream| - 1]); }
  }

  lemma RetainedAfterPush(s: State, channel: Channel, chunk: Chunk, other: Channel)
    ensures Retained(Push(s, channel, chunk), other) == Retained(s, other) + if other == channel then chunk else []
  {
    var chunks := if channel.Stdout? then s.stdout else s.stderr;
    assert (chunks + [chunk])[..|chunks|] == chunks;
  }

  /** The first bytes of the stream once a chunk has arrived: those before, then as much of the chunk as fits. */
  lemma TakeOfMore(stream: Arrivals, tag: Channel, chunk: Chunk, n: nat)
    ensures Take(stream + Tagged(tag, chunk), n)
      == Take(stream, n) + Tagged(tag, chunk[..Min(|chunk|, Max(n - |stream|, 0))])
  {
  }

  /** A chunk leaves on each channel exactly its share of the first maximum bytes. */
  lemma StepKeepsShare(maximum: nat, s: State, stream: Arrivals, tag: Channel, chunk: Chunk, channel: Channel)
    requires s.bytes == Min(|stream|, maximum)
    requires Retained(s, channel) == On(channel, Take(stream, maximum))
    ensures Retained(Step(maximum, s, Data(tag, chunk)), channel)
      == On(channel, Take(stream + Tagged(tag, chunk), maximum))
  {
    var kept := chunk[..Min(|chunk|, Max(maximum - |stream|, 0))];
    TakeOfMore(stream, tag, chunk, maximum);
    OnConcat(channel, Take(stream, maximum), Tagged(tag, kept));
    OnTagged(channel, tag, kept);
    RetainedAfterPush(s, tag, kept, channel);
    hide On, Take, Tagged, Joined;
  }

  /**
   Each channel keeps its share of the first maximum bytes, truncation is reported exactly when more was received, and
   the process is killed once if it is stopped at all.
   */
  ghost predicate Exact(maximum: nat, s: State, stream: Arrivals, deadline: bool) {
    && Retained(s, Stdout) == On(Stdout, Take(stream, maximum))
    && Retained(s, Stderr) == On(Stderr, Take(stream, maximum))
    && s.bytes == Min(|stream|, maximum)
    && (s.outputTruncated <==> |stream| > maximum)
    && (s.timedOut <==> deadline)
    && (s.stopped <==> s.timedOut || s.outputTruncated)
    && s.kills == if s.stopped then 1 else 0
  }

  lemma DataStep(maximum: nat, s: State, stream: Arrivals, deadline: bool, tag: Channel, chunk: Chunk)
    requires Exact(maximum, s, stream, deadline)
    ensures Exact(maximum, Step(maximum, s, Data(tag, chunk)), stream + Tagged(tag, chunk), deadline)
  {
    StepKeepsShare(maximum, s, stream, tag, chunk, Stdout);
    StepKeepsShare(maximum, s, stream, tag, chunk, Stderr);
    hide On, Take, Retained, Tagged;
    assert |stream + Tagged(tag, chunk)| == |stream| + |chunk|;
  }

  lemma DeadlineStep(maximum: nat, s: State, stream: Arrivals, deadline: bool)
    requires Exact(maximum, s, stream, deadline)
    ensures Exact(maximum, Step(maximum, s, Deadline), stream, true)
  {
    hide On, Take;
  }

  /** The budget is exact after any interleaving of chunks, deadline and abort. */
  lemma {:induction false} BudgetIsExact(maximum: nat, events: seq<Event>)
    ensures Exact(maximum, Run(maximum, events), Arrived(events), Deadline in events)
    decreases |events|
  {
    hide Exact, Step, Tagged;
    if events != [] {
      var (init, e) := (events[..|events| - 1], events[|events| - 1]);
      BudgetIsExact(maximum, init);
      assert events == init + [e];
      if e.Data? {
        DataStep(maximum, Run(maximum, init), Arrived(init), Deadline in init, e.channel, e.chunk);
      } else {
        DeadlineStep(maximum, Run(maximum, init), Arrived(init), Deadline in init);
        assert Arrived(init) + [] == Arrived(init);
      }
    } else {
      NothingYet(maximum);
    }
  }

  lemma NothingYet(maximum: nat)
    ensures Exact(maximum, Initial(), [], false)
  {
  }

  /** The two channels together retain the smaller of what was received and the maximum. */
  lemma RetainedTotal(maximum: nat, events: seq<Event>)
    ensures var s := Run(maximum, events);
      |Retained(s, Stdout)| + |Retained(s, Stderr)| == Min(|Arrived(events)|, maximum)
  {
    BudgetIsExact(maximum, events);
    OnBothChannels(Take(Arrived(events), maximum));
    TakeLength(Arrived(events), maximum);
    hide On, Take, Run, Retained;
  }

  lemma TakeLength(stream: Arrivals, n: nat)
    ensures |Take(stream, n)| == Min(|stream|, n)
  {
  }

  /** Each channel keeps a prefix of its own stream, all of it unless the output is truncated. */
  lemma ChannelsKeepPrefixes(maximum: nat, events: seq<Event>, channel: Channel)
    ensures Retained(Run(maximum, events), channel) <= On(channel, Arrived(events))
    ensures !Run(maximum, events).outputTruncated ==>
      Retained(Run(maximum, events), channel) == On(channel, Arrived(events))
  {
    BudgetIsExact(maximum, events);
    SplitAtTake(channel, Arrived(events), maximum);
    hide On, Take, Run, Retained;
  }

  lemma SplitAtTake(channel: Channel, stream: Arrivals, n: nat)
    ensures On(channel, Take(stream, n)) <= On(channel, stream)
    ensures |stream| <= n ==> Take(stream, n) == stream
  {
    var taken := Take(stream, n);
    OnConcat(channel, taken, stream[|taken|..]);
    assert stream == taken + stream[|taken|..];
    hide On;
  }
}
