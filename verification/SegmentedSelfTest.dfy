/** The self-test of the segmented download: what its successive reads deliver, and when that passes. */
module SegmentedSelfTest {
  import opened Bytes
  import opened Segments
  import opened SegmentsSafety
  import opened SegmentReads
  import opened SegmentRuns
  import opened SegmentFinish
  import SelfTest

  /** One read of the stream: the steps the download takes while the reader waits, those it takes until
      the reader has its bytes, and how many were asked for. */
  datatype Read = Read(wait: seq<Step>, take: seq<Step>, count: int)

  /** How much a read can ask for at a position. */
  function Clamped(total: nat, position: nat, count: int): (n: nat)
    ensures n > 0 ==> position + n <= total
    ensures 0 < count && position < total ==> 0 < n <= count && (n == count || position + n == total)
  {
    if count <= 0 || position >= total then 0 else if count > total - position then total - position else count
  }

  /** The states in which the reader stops waiting and takes its bytes, if this read can go that way. */
  function Moments(c: Config, s: State, position: nat, read: Read): (m: Option<(State, State)>)
    ensures m.Some? ==>
      && Run(c, s, read.wait) == Some(m.value.0) && Run(c, m.value.0, read.take) == Some(m.value.1)
      && MayProceed(m.value.0, position, Clamped(s.Total(), position, read.count))
      && position + Clamped(s.Total(), position, read.count) <= |m.value.1.buffer|
  {
    var n, u := Clamped(s.Total(), position, read.count), Run(c, s, read.wait);
    if u.None? || !MayProceed(u.value, position, n) then None
    else
      var t := Run(c, u.value, read.take);
      if t.None? || position + n > |t.value.buffer| then None else Some((u.value, t.value))
  }

  /** All bytes that successive reads deliver, if they can go that way. */
  function ReadThrough(c: Config, s: State, position: nat, readings: seq<Read>): Option<seq<byte>>
    decreases |readings|
  {
    if readings == [] then Some([])
    else
      var n := Clamped(s.Total(), position, readings[0].count);
      if n == 0 then ReadThrough(c, s, position, readings[1..])
      else
        var m := Moments(c, s, position, readings[0]);
        if m.None? then None
        else
          var bytes := ReadResult(m.value.1, position, n);
          var rest := ReadThrough(c, m.value.1, position + |bytes|, readings[1..]);
          if rest.None? then None else Some(bytes + rest.value)
  }

  /** Every one of the reads can rely on what it gets. */
  predicate AllTrusted(c: Config, s: State, position: nat, readings: seq<Read>)
    decreases |readings|
  {
    readings == [] ||
    var n := Clamped(s.Total(), position, readings[0].count);
    if n == 0 then AllTrusted(c, s, position, readings[1..])
    else
      var m := Moments(c, s, position, readings[0]);
      m.Some? ==>
        && Trusted(m.value.0, m.value.1, position, n)
        && AllTrusted(c, m.value.1, position + |ReadResult(m.value.1, position, n)|, readings[1..])
  }

  /** What is true where the reader stops waiting stays true, and so do the two files' sizes. */
  lemma MomentsKeep(c: Config, s: State, position: nat, read: Read)
    requires Core(c, s) && Moments(c, s, position, read).Some?
    ensures var (u, t) := Moments(c, s, position, read).value;
            Core(c, u) && Core(c, t) && u.source == t.source == s.source
  {
    hide Run, Core, MayProceed;
    var (u, t) := Moments(c, s, position, read).value;
    RunCore(c, s, read.wait);
    RunMonotone(c, s, read.wait);
    RunCore(c, u, read.take);
    RunMonotone(c, u, read.take);
  }

  /** Reads that can rely on what they get deliver the remote file in order. */
  lemma {:induction false} TrustedReadsInOrder(c: Config, s: State, position: nat, readings: seq<Read>)
    requires Core(c, s) && position <= s.Total()
    requires AllTrusted(c, s, position, readings) && ReadThrough(c, s, position, readings).Some?
    ensures ReadThrough(c, s, position, readings).value <= s.source[position..]
    decreases |readings|
  {
    hide Run, Core, MayProceed, ReadResult, Trusted, Moments;
    if readings != [] {
      var n := Clamped(s.Total(), position, readings[0].count);
      if n == 0 {
        TrustedReadsInOrder(c, s, position, readings[1..]);
      } else {
        MomentsKeep(c, s, position, readings[0]);
        var (u, t) := Moments(c, s, position, readings[0]).value;
        ReadsAreRight(c, u, readings[0].take, position, n);
        var next := position + |ReadResult(t, position, n)|;
        TrustedReadsInOrder(c, t, next, readings[1..]);
        assert s.source[position..] == s.source[position..next] + s.source[next..];
      }
    }
  }

  /** A segmented stream read to its end by such reads passes the comparison; one that was not does not. */
  lemma RightReadsPass(c: Config, source: seq<byte>, readings: seq<Read>, chunk: nat)
    requires chunk > 0
    requires AllTrusted(c, Init(source), 0, readings) && ReadThrough(c, Init(source), 0, readings).Some?
    ensures var bytes := ReadThrough(c, Init(source), 0, readings).value;
            SelfTest.Judge(source, bytes, |source|, chunk).Clean? <==> |bytes| == |source|
  {
    hide Run, Core, AllTrusted, ReadThrough, SelfTest.Judge;
    InitInv(c, source);
    TrustedReadsInOrder(c, Init(source), 0, readings);
    SelfTest.CleanIff(source, ReadThrough(c, Init(source), 0, readings).value, |source|, chunk);
    assert source[0..] == source;
  }

  // ---------- a download that other readers share ----------

  lemma {:induction false} TruthfulTrusts(c: Config, s: State, position: nat, readings: seq<Read>)
    requires Truthful(c) && Core(c, s) && Careful(c, s)
    ensures AllTrusted(c, s, position, readings)
    decreases |readings|
  {
    hide Run, Core, MayProceed, ReadResult, Truthful, Careful, Moments;
    if readings != [] {
      var n := Clamped(s.Total(), position, readings[0].count);
      var m := Moments(c, s, position, readings[0]);
      if n == 0 {
        TruthfulTrusts(c, s, position, readings[1..]);
      } else if m.Some? {
        var (u, t) := m.value;
        RunCareful(c, s, readings[0].wait);
        CarefulStops(c, u);
        RunCareful(c, u, readings[0].take);
        TruthfulTrusts(c, t, position + |ReadResult(t, position, n)|, readings[1..]);
      }
    }
  }

  lemma CarefulStops(c: Config, s: State)
    requires Core(c, s) && Careful(c, s)
    ensures NoOvershoot(s)
  {
    hide Spans, CorrectAt;
    forall i | 0 <= i < |s.segments|
      ensures s.segments[i].downloaded <= s.segments[i].length
    {
      assert WithinEnd(s.segments[i]);
    }
  }

  /** A read that stops waiting when the download looks finished, and takes its bytes at once. */
  lemma ReadFinished(c: Config, s0: State, steps: seq<Step>, s: State, position: nat, count: int, rest: seq<Read>)
    requires Run(c, s0, steps) == Some(s) && s.source == s0.source && Finished(s) && position < |s.buffer| == |s.source|
    requires 0 < count
    ensures var n := Clamped(s.Total(), position, count);
            var next := position + |ReadResult(s, position, n)|;
            && Moments(c, s0, position, Read(steps, [], count)) == Some((s, s)) && position < next <= position + n
            && ReadThrough(c, s0, position, [Read(steps, [], count)] + rest)
                 == var later := ReadThrough(c, s, next, rest);
                    if later.None? then None else Some(s.buffer[position..next] + later.value)
  {
    hide Run, Finished, Available, AvailableRun;
    var read := Read(steps, [], count);
    var none := Started(c, s);
    assert Moments(c, s0, position, read) == Some((s, s));
    assert ([read] + rest)[1..] == rest;
  }

  /** Where nothing is available, a read of a download that looks finished delivers the whole rest. */
  lemma RestRead(c: Config, s: State, next: nat)
    requires Finished(s) && next <= |s.buffer| == |s.source| && (next < |s.buffer| ==> Stops(s, next))
    ensures ReadThrough(c, s, next, [Read([], [], s.Total())]) == Some(s.buffer[next..])
  {
    hide Run, Finished, Available, Moments, Stops;
    var read := Read([], [], s.Total());
    assert [read] + [] == [read] && [read][1..] == [];
    if next < s.Total() {
      var none := Started(c, s);
      assert AvailableRun(s, next, s.Total() - next) == 0;
      ReadFinished(c, s, [], s, next, s.Total(), []);
      assert s.buffer[next..s.Total()] + [] == s.buffer[next..];
    } else {
      assert s.buffer[next..] == [];
    }
  }

  /** Once a download looks finished, two reads deliver the local file, whatever is in it. */
  lemma FinishedReads(c: Config, s0: State, steps: seq<Step>, s: State) returns (readings: seq<Read>)
    requires Run(c, s0, steps) == Some(s) && s.source == s0.source && Finished(s) && 0 < |s.buffer| == |s.source|
    ensures ReadThrough(c, s0, 0, readings) == Some(s.buffer)
  {
    hide Run, Finished, Available, ReadThrough, Stops;
    var again := [Read([], [], s.Total())];
    readings := [Read(steps, [], s.Total())] + again;
    ReadFinished(c, s0, steps, s, 0, s.Total(), again);
    var next := |ReadResult(s, 0, s.Total())|;
    RestRead(c, s, next);
    assert s.buffer[0..next] + s.buffer[next..] == s.buffer;
  }

  /** Whatever successive reads of a download deliver is the beginning of the remote file. */
  ghost predicate AlwaysInOrder(c: Config)
  {
    forall source, readings :: InOrder(c, source, readings)
  }

  ghost predicate InOrder(c: Config, source: seq<byte>, readings: seq<Read>)
  {
    var bytes := ReadThrough(c, Init(source), 0, readings);
    bytes.Some? ==> bytes.value <= source
  }

  /** When others may ask for segments too, exactly the truthful configurations deliver the file in order. */
  lemma SharedReadsIff(c: Config)
    ensures AlwaysInOrder(c) <==> Truthful(c)
  {
    assert !Truthful(c) ==> c.bufferSize > 0;
    hide Run, Core, Init, Truthful, Careful, AllTrusted, ReadThrough, Finished, Available;
    if Truthful(c) {
      forall source, readings
        ensures InOrder(c, source, readings)
      {
        TruthfulInOrder(c, source, readings);
      }
    } else {
      var source := Ones(PrematureSize(c));
      var steps := PrematureFinish(c, source);
      var s := Run(c, Init(source), steps).value;
      InitHasSource(source);
      var readings := FinishedReads(c, Init(source), steps, s);
      assert source[|source| - 1] != s.buffer[|source| - 1];
      assert !InOrder(c, source, readings);
    }
  }

  lemma InitHasSource(source: seq<byte>)
    ensures Init(source).source == source
  {
  }

  lemma TruthfulInOrder(c: Config, source: seq<byte>, readings: seq<Read>)
    requires Truthful(c)
    ensures InOrder(c, source, readings)
  {
    hide Run, Core, Truthful, AllTrusted, ReadThrough;
    InitInv(c, source);
    TruthfulTrusts(c, Init(source), 0, readings);
    if ReadThrough(c, Init(source), 0, readings).Some? {
      TrustedReadsInOrder(c, Init(source), 0, readings);
      assert source[0..] == source;
    }
  }

  // ---------- the self-test's own download ----------

  /** The two passes that read a segmented stream. */
  datatype Pass = Hashing | Comparing

  /** How much a pass asks for: always a chunk, or what the chunk at this position still lacks. */
  function Asked(pass: Pass, total: nat, position: nat, chunk: nat): (n: int)
    requires chunk > 0
    ensures position < total ==> n > 0
    ensures pass.Hashing? ==> n == chunk
    ensures pass.Comparing? && position < total ==>
      n <= chunk && (position + n == total || SelfTest.ChunkStart(position + n, chunk) == position + n)
  {
    SelfTest.ChunkStartTwice(position, chunk);
    SelfTest.ChunkStartIs(SelfTest.ChunkStart(position, chunk), 0, chunk);
    match pass
    case Hashing => chunk
    case Comparing => SelfTest.Min(SelfTest.ChunkStart(position, chunk) + chunk, total) - position
  }

  /** While it waits, the only reader of a download asks for nothing but the place up to which it has seen
      bytes to be available, at this look or an earlier one. */
  predicate OwnWait(c: Config, s: State, position: nat, count: nat, steps: seq<Step>, seen: set<int>)
    decreases |steps|
  {
    if steps == [] then true
    else
      var now := seen + {AvailableRun(s, position, count)};
      && (steps[0].Request? ==> steps[0].offset - position in now)
      && (Next(c, s, steps[0]).Some? ==> OwnWait(c, Next(c, s, steps[0]).value, position, count, steps[1..], now))
  }

  /** After this many steps of a wait, the reader saw just the bytes before `offset` to be available. */
  predicate Saw(c: Config, s: State, position: nat, count: nat, steps: seq<Step>, j: nat, offset: int)
    requires j <= |steps|
  {
    Run(c, s, steps[..j]).Some? && offset == position + AvailableRun(Run(c, s, steps[..j]).value, position, count)
  }

  predicate SawBefore(c: Config, s: State, position: nat, count: nat, steps: seq<Step>, k: nat)
    requires k < |steps| && steps[k].Request?
  {
    exists j: nat :: j <= k && Saw(c, s, position, count, steps, j, steps[k].offset)
  }

  /** Exactly what a waiting reader may ask for: a place it saw at an earlier look, or at this one. */
  lemma OwnWaitIff(c: Config, s: State, position: nat, count: nat, steps: seq<Step>)
    requires Run(c, s, steps).Some?
    ensures OwnWait(c, s, position, count, steps, {}) <==>
      forall k: nat :: k < |steps| && steps[k].Request? ==> SawBefore(c, s, position, count, steps, k)
  {
    hide OwnWait, SawBefore, Run;
    OwnWaitFrom(c, s, position, count, steps, {});
  }

  lemma {:induction false} OwnWaitFrom(c: Config, s: State, position: nat, count: nat, steps: seq<Step>, seen: set<int>)
    requires Run(c, s, steps).Some?
    ensures OwnWait(c, s, position, count, steps, seen) <==>
      forall k: nat :: k < |steps| && steps[k].Request? ==>
        steps[k].offset - position in seen || SawBefore(c, s, position, count, steps, k)
    decreases |steps|
  {
    hide Next, AvailableRun, SawBefore;
    if steps != [] {
      var t, rest, now := Next(c, s, steps[0]).value, steps[1..], seen + {AvailableRun(s, position, count)};
      OwnWaitFrom(c, t, position, count, rest, now);
      forall k: nat | k < |steps| && steps[k].Request?
        ensures steps[k].offset - position in seen || SawBefore(c, s, position, count, steps, k) <==>
          steps[k].offset - position in now || (k > 0 && SawBefore(c, t, position, count, rest, k - 1))
      {
        SawShift(c, s, position, count, steps, k);
      }
      assert forall k: nat :: k < |rest| ==> rest[k] == steps[k + 1];
    }
  }

  lemma SawShift(c: Config, s: State, position: nat, count: nat, steps: seq<Step>, k: nat)
    requires k < |steps| && steps[k].Request? && Next(c, s, steps[0]).Some?
    ensures SawBefore(c, s, position, count, steps, k) <==>
      || steps[k].offset - position == AvailableRun(s, position, count)
      || (k > 0 && SawBefore(c, Next(c, s, steps[0]).value, position, count, steps[1..], k - 1))
  {
    hide Next, AvailableRun;
    var t, rest := Next(c, s, steps[0]).value, steps[1..];
    assert steps[..0] == [];
    assert Saw(c, s, position, count, steps, 0, steps[k].offset) <==> steps[k].offset - position == AvailableRun(s, position, count);
    forall j: nat | 1 <= j <= k
      ensures Saw(c, s, position, count, steps, j, steps[k].offset) <==> Saw(c, t, position, count, rest, j - 1, steps[k].offset)
    {
      assert steps[..j][0] == steps[0] && steps[..j][1..] == rest[..j - 1];
    }
    if k > 0 && SawBefore(c, t, position, count, rest, k - 1) {
      var j: nat :| j <= k - 1 && Saw(c, t, position, count, rest, j, rest[k - 1].offset);
      assert Saw(c, s, position, count, steps, j + 1, steps[k].offset);
    }
    if SawBefore(c, s, position, count, steps, k) {
      var j: nat :| j <= k && Saw(c, s, position, count, steps, j, steps[k].offset);
      if j > 0 {
        assert Saw(c, t, position, count, rest, j - 1, rest[k - 1].offset);
      }
    }
  }

  /** The reads of one pass, on a download that nobody else reads. */
  predicate ByTest(c: Config, s: State, position: nat, pass: Pass, chunk: nat, readings: seq<Read>)
    requires chunk > 0
    decreases |readings|
  {
    if readings == [] then true
    else
      var n := Clamped(s.Total(), position, readings[0].count);
      && readings[0].count == Asked(pass, s.Total(), position, chunk)
      && if n == 0 then ByTest(c, s, position, pass, chunk, readings[1..])
         else
           && OwnWait(c, s, position, n, readings[0].wait, {}) && Quiet(readings[0].take)
           && var m := Moments(c, s, position, readings[0]);
              m.Some? ==> ByTest(c, m.value.1, position + |ReadResult(m.value.1, position, n)|, pass, chunk, readings[1..])
  }

  // ---------- one connection is never split by its only reader ----------

  /** The download still has its one segment, and whatever was asked for had been downloaded. */
  predicate Lone(s: State)
  {
    && |s.segments| == 1 && |s.buffer| == |s.source|
    && s.segments[0].offset == 0 && s.segments[0].length == s.Total()
    && 0 <= s.segments[0].downloaded && WithinEnd(s.segments[0])
    && (s.monitor.Watching? || s.monitor.Entering? || s.monitor.Stopped?)
    && (s.priority.Some? ==> s.priority.value <= s.segments[0].downloaded)
  }

  lemma LoneCut(s: State)
    requires Lone(s)
    ensures s.priority.Some? ==> CutForOffset(s, s.priority.value).None?
  {
  }

  lemma LonePick(c: Config, s: State)
    requires c.concurrency <= 1 && Lone(s) && PickStep(c, s).Some?
    ensures Lone(PickStep(c, s).value) && PickStep(c, s).value.segments == s.segments
    ensures PickStep(c, s).value.source == s.source
  {
    hide Active, WithinEnd, CutForOffset;
    LoneCut(s);
    if Best(s.segments).Some? {
      IncompleteIsActive(s.segments, Best(s.segments).value);
    }
  }

  lemma LoneNext(c: Config, s: State, step: Step)
    requires c.concurrency <= 1 && Lone(s) && Next(c, s, step).Some?
    requires step.Request? ==> step.offset <= s.segments[0].downloaded
    ensures var t := Next(c, s, step).value;
            Lone(t) && t.source == s.source && s.segments[0].downloaded <= t.segments[0].downloaded
  {
    hide PickStep, Overwrite, TotalProgress;
    if step.Pick? {
      LonePick(c, s);
    }
  }

  lemma {:induction false} QuietKeeps(c: Config, s: State, steps: seq<Step>)
    requires c.concurrency <= 1 && Lone(s) && Quiet(steps) && Run(c, s, steps).Some?
    ensures var t := Run(c, s, steps).value;
            Lone(t) && t.source == s.source && s.segments[0].downloaded <= t.segments[0].downloaded
    decreases |steps|
  {
    hide Next;
    if steps != [] {
      LoneNext(c, s, steps[0]);
      assert forall i :: 0 <= i < |steps[1..]| ==> steps[1..][i] == steps[i + 1];
      QuietKeeps(c, Next(c, s, steps[0]).value, steps[1..]);
    }
  }

  lemma AvailableIsDownloaded(s: State, position: nat, count: nat)
    requires Lone(s) && position <= s.segments[0].downloaded
    ensures position + AvailableRun(s, position, count) <= s.segments[0].downloaded
  {
    var n := AvailableRun(s, position, count);
    if n > 0 {
      assert Available(s, position + n - 1);
    }
  }

  lemma {:induction false} OwnWaitKeeps(c: Config, s: State, position: nat, count: nat, steps: seq<Step>, seen: set<int>)
    requires c.concurrency <= 1 && Lone(s) && OwnWait(c, s, position, count, steps, seen) && Run(c, s, steps).Some?
    requires position <= s.segments[0].downloaded && forall n :: n in seen ==> position + n <= s.segments[0].downloaded
    ensures var t := Run(c, s, steps).value;
            Lone(t) && t.source == s.source && s.segments[0].downloaded <= t.segments[0].downloaded
    decreases |steps|
  {
    hide Next, AvailableRun;
    if steps != [] {
      AvailableIsDownloaded(s, position, count);
      LoneNext(c, s, steps[0]);
      OwnWaitKeeps(c, Next(c, s, steps[0]).value, position, count, steps[1..], seen + {AvailableRun(s, position, count)});
    }
  }

  /** A reader of such a download never gets ahead of it. */
  lemma LoneRead(u: State, t: State, position: nat, n: nat)
    requires Lone(u) && Lone(t) && t.source == u.source && u.segments[0].downloaded <= t.segments[0].downloaded
    requires position <= u.segments[0].downloaded && position + n <= u.Total() && MayProceed(u, position, n)
    ensures NoOvershoot(u) && position + |ReadResult(t, position, n)| <= t.segments[0].downloaded
  {
    hide AvailableRun;
    AvailableIsDownloaded(u, position, n);
    if Finished(u) {
      assert u.segments[1..] == [];
      assert SumDownloaded(u.segments[1..]) == 0;
      assert TotalProgress(u) == u.segments[0].downloaded;
    }
  }

  lemma {:induction false} LoneTrusts(c: Config, s: State, position: nat, pass: Pass, chunk: nat, readings: seq<Read>)
    requires c.concurrency <= 1 && Lone(s) && position <= s.segments[0].downloaded
    requires chunk > 0 && ByTest(c, s, position, pass, chunk, readings)
    ensures AllTrusted(c, s, position, readings)
    decreases |readings|
  {
    hide Run, MayProceed, ReadResult, Lone, OwnWait, Quiet, NoOvershoot;
    if readings != [] {
      var n := Clamped(s.Total(), position, readings[0].count);
      var m := Moments(c, s, position, readings[0]);
      if n == 0 {
        LoneTrusts(c, s, position, pass, chunk, readings[1..]);
      } else if m.Some? {
        LoneMoments(c, s, position, n, readings[0]);
        LoneTrusts(c, m.value.1, position + |ReadResult(m.value.1, position, n)|, pass, chunk, readings[1..]);
      }
    }
  }

  lemma LoneMoments(c: Config, s: State, position: nat, n: nat, read: Read)
    requires c.concurrency <= 1 && Lone(s) && position <= s.segments[0].downloaded
    requires n == Clamped(s.Total(), position, read.count) > 0 && Moments(c, s, position, read).Some?
    requires OwnWait(c, s, position, n, read.wait, {}) && Quiet(read.take)
    ensures var (u, t) := Moments(c, s, position, read).value;
            && Lone(t) && Trusted(u, t, position, n) && t.source == s.source
            && position + |ReadResult(t, position, n)| <= t.segments[0].downloaded
  {
    hide Run, MayProceed, ReadResult, OwnWait, Quiet, NoOvershoot, AvailableRun;
    var (u, t) := Moments(c, s, position, read).value;
    OwnWaitKeeps(c, s, position, n, read.wait, {});
    QuietKeeps(c, u, read.take);
    LoneRead(u, t, position, n);
  }

  // ---------- exactly which configurations pass ----------

  lemma {:induction false} QuietIsOwn(c: Config, s: State, position: nat, count: nat, steps: seq<Step>, seen: set<int>)
    requires Quiet(steps)
    ensures OwnWait(c, s, position, count, steps, seen)
    decreases |steps|
  {
    hide Next, AvailableRun;
    if steps != [] && Next(c, s, steps[0]).Some? {
      assert forall i :: 0 <= i < |steps[1..]| ==> steps[1..][i] == steps[i + 1];
      QuietIsOwn(c, Next(c, s, steps[0]).value, position, count, steps[1..], seen + {AvailableRun(s, position, count)});
    }
  }

  /** Once a download looks finished, a pass of the self-test can read the whole local file, whatever is in it. */
  lemma {:induction false} PassReads(c: Config, s0: State, steps: seq<Step>, s: State, position: nat, pass: Pass, chunk: nat)
    returns (readings: seq<Read>)
    requires Run(c, s0, steps) == Some(s) && Quiet(steps) && s.source == s0.source && Finished(s)
    requires chunk > 0 && position < |s.buffer| == |s.source|
    ensures ReadThrough(c, s0, position, readings) == Some(s.buffer[position..])
    ensures ByTest(c, s0, position, pass, chunk, readings)
    decreases |s.buffer| - position
  {
    hide Run, Finished, Available, ReadThrough, Stops, Moments, OwnWait, ReadResult;
    var count := Asked(pass, s.Total(), position, chunk);
    var n := Clamped(s.Total(), position, count);
    var next := position + |ReadResult(s, position, n)|;
    var none := Started(c, s);
    QuietIsOwn(c, s0, position, n, steps, {});
    ReadFinished(c, s0, steps, s, position, count, []);
    var rest;
    if next == s.Total() {
      rest := [];
      NothingRead(c, s, next);
      assert s.buffer[position..next] + [] == s.buffer[position..];
    } else {
      rest := PassReads(c, s, none, s, next, pass, chunk);
      assert s.buffer[position..next] + s.buffer[next..] == s.buffer[position..];
    }
    ReadFinished(c, s0, steps, s, position, count, rest);
    readings := [Read(steps, [], count)] + rest;
    assert readings[1..] == rest;
  }

  lemma NothingRead(c: Config, s: State, position: nat)
    ensures ReadThrough(c, s, position, []) == Some([])
  {
  }

  /** The reads of a pass, from the start of its download, if they reach the end of the file. */
  ghost predicate ReadsAll(c: Config, source: seq<byte>, pass: Pass, chunk: nat, readings: seq<Read>, bytes: seq<byte>)
    requires chunk > 0
  {
    && ByTest(c, Init(source), 0, pass, chunk, readings)
    && ReadThrough(c, Init(source), 0, readings) == Some(bytes) && |bytes| == |source|
  }

  /** What the self-test reports as success, when the network delivers nothing but the file. */
  predicate Reported<D(==)>(sha: seq<byte> -> D, source: seq<byte>, hashed: seq<byte>, compared: seq<byte>, chunk: nat)
    requires chunk > 0
  {
    sha(source) == sha(hashed) && SelfTest.Judge(source, compared, |source|, chunk).Clean?
  }

  ghost predicate Passes<D>(c: Config, sha: seq<byte> -> D, chunk: nat, source: seq<byte>,
                            hashing: seq<Read>, hashed: seq<byte>, comparing: seq<Read>, compared: seq<byte>)
    requires chunk > 0
  {
    ReadsAll(c, source, Hashing, chunk, hashing, hashed) && ReadsAll(c, source, Comparing, chunk, comparing, compared)
    ==> Reported(sha, source, hashed, compared, chunk)
  }

  /** The self-test reports success in every run in which its passes reach the end of the file. */
  ghost predicate AlwaysPasses<D>(c: Config, sha: seq<byte> -> D, chunk: nat)
    requires chunk > 0
  {
    forall source, hashing, hashed, comparing, compared ::
      Passes(c, sha, chunk, source, hashing, hashed, comparing, compared)
  }

  /** A pass of a download with one connection, or without a buffer, reads the file. */
  lemma PassIsRight(c: Config, source: seq<byte>, pass: Pass, chunk: nat, readings: seq<Read>, bytes: seq<byte>)
    requires chunk > 0 && (c.bufferSize == 0 || c.concurrency <= 1)
    requires ReadsAll(c, source, pass, chunk, readings, bytes)
    ensures bytes == source
  {
    hide Run, Core, AllTrusted, ReadThrough, ByTest;
    InitInv(c, source);
    if c.concurrency <= 1 {
      LoneTrusts(c, Init(source), 0, pass, chunk, readings);
    } else {
      TruthfulTrusts(c, Init(source), 0, readings);
    }
    TrustedReadsInOrder(c, Init(source), 0, readings);
    assert source[0..] == source;
  }

  /** Exactly with one connection, or without a buffer, the self-test always reports success. In every other
      configuration, and for every size of its buffers, it can report corruption of a file that the network
      delivers without a fault. */
  lemma PassesIff<D>(c: Config, sha: seq<byte> -> D, chunk: nat)
    requires chunk > 0
    ensures AlwaysPasses(c, sha, chunk) <==> c.bufferSize == 0 || c.concurrency <= 1
  {
    hide Run, Init, ReadThrough, ByTest, SelfTest.Judge, Finished, Available, ReadsAll;
    if c.bufferSize == 0 || c.concurrency <= 1 {
      forall source, hashing, hashed, comparing, compared
        ensures Passes(c, sha, chunk, source, hashing, hashed, comparing, compared)
      {
        if ReadsAll(c, source, Hashing, chunk, hashing, hashed) && ReadsAll(c, source, Comparing, chunk, comparing, compared) {
          PassIsRight(c, source, Hashing, chunk, hashing, hashed);
          PassIsRight(c, source, Comparing, chunk, comparing, compared);
          SelfTest.CleanIff(source, compared, |source|, chunk);
        }
      }
    } else {
      var source, hashing, comparing, local := TornTest(c, chunk);
      SelfTest.CleanIff(source, local, |source|, chunk);
      assert source[..|source|] == source && local[..|source|] == local;
      assert !Passes(c, sha, chunk, source, hashing, local, comparing, local);
    }
  }

  /** Both passes read a local file that is not the remote one. */
  lemma TornTest(c: Config, chunk: nat) returns (source: seq<byte>, hashing: seq<Read>, comparing: seq<Read>, local: seq<byte>)
    requires chunk > 0 && c.bufferSize > 0 && c.concurrency > 1
    ensures ReadsAll(c, source, Hashing, chunk, hashing, local) && ReadsAll(c, source, Comparing, chunk, comparing, local)
    ensures local != source && |local| == |source|
  {
    hide Run, Init, ReadThrough, ByTest, Finished, Available, Quiet;
    source := Ones(PrematureSize(c));
    var steps := PrematureFinish(c, source);
    var s := Run(c, Init(source), steps).value;
    local := s.buffer;
    InitHasSource(source);
    hashing := PassReads(c, Init(source), steps, s, 0, Hashing, chunk);
    comparing := PassReads(c, Init(source), steps, s, 0, Comparing, chunk);
    assert s.buffer[0..] == s.buffer;
    assert source[|source| - 1] != s.buffer[|source| - 1];
  }
}
