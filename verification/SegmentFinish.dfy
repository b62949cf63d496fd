/** When a segmented download looks finished, and exactly when it then is. */
module SegmentFinish {
  import opened Bytes
  import opened Segments
  import opened SegmentsSafety
  import opened SegmentReads
  import opened SegmentRuns

  // ---------- the progress count ----------

  lemma {:induction false} SumDownloadedUpdate(segments: seq<Segment>, i: nat, segment: Segment)
    requires i < |segments|
    ensures SumDownloaded(segments[i := segment])
      == SumDownloaded(segments) - segments[i].downloaded + segment.downloaded
  {
    var after := segments[i := segment];
    if i == 0 {
      assert after[1..] == segments[1..];
    } else {
      SumDownloadedUpdate(segments[1..], i - 1, segment);
      assert after[1..] == segments[1..][i - 1 := segment];
    }
  }

  lemma {:induction false} SumDownloadedAppend(segments: seq<Segment>, segment: Segment)
    ensures SumDownloaded(segments + [segment]) == SumDownloaded(segments) + segment.downloaded
  {
    if segments == [] {
      assert (segments + [segment])[1..] == [];
    } else {
      SumDownloadedAppend(segments[1..], segment);
      assert (segments + [segment])[1..] == segments[1..] + [segment];
    }
  }

  lemma CutProgress(segments: seq<Segment>, b: nat, k: int)
    requires b < |segments|
    ensures SumDownloaded(Cut(segments, b, k)) == SumDownloaded(segments)
  {
    hide SumDownloaded;
    var seg := segments[b];
    var short := seg.(length := seg.length - k);
    SumDownloadedUpdate(segments, b, short);
    SumDownloadedAppend(segments[b := short], Segment(seg.offset + seg.length - k, k, 0, Unstarted));
  }

  /** The progress grows by exactly what is written, and no other step touches it. */
  lemma ProgressStep(c: Config, s: State, step: Step)
    requires Next(c, s, step).Some?
    ensures TotalProgress(Next(c, s, step).value) == TotalProgress(s) + if step.Store? then step.n else 0
    ensures Next(c, s, step).value.source == s.source
  {
    hide SumDownloaded, Cut, CutForOffset, Best, Overwrite, Active;
    var t := Next(c, s, step).value;
    match step {
      case Plan(i) => SumDownloadedUpdate(s.segments, i, t.segments[i]);
      case Store(i, n) => SumDownloadedUpdate(s.segments, i, t.segments[i]);
      case Retry(i) => SumDownloadedUpdate(s.segments, i, t.segments[i]);
      case Pick =>
        if t.monitor.Launching? {
          var cut := CutForOffset(s, s.priority.value);
          CutSource(s, s.priority.value);
          CutProgress(s.segments, cut.value.0, cut.value.1);
        }
      case Split => CutProgress(s.segments, s.monitor.seg, s.monitor.split);
      case Launch => SumDownloadedUpdate(s.segments, s.monitor.seg, t.segments[s.monitor.seg]);
      case _ =>
    }
  }

  /** A priority request cuts an incomplete segment, behind what has been downloaded of it. */
  lemma CutSource(s: State, offset: int)
    requires CutForOffset(s, offset).Some?
    ensures var (b, k) := CutForOffset(s, offset).value;
            && b < |s.segments| && !s.segments[b].Completed() && 0 < k
            && s.segments[b].downloaded < s.segments[b].length - k
  {
    hide FindSource;
  }

  lemma {:induction false} RunProgress(c: Config, s: State, steps: seq<Step>)
    requires Run(c, s, steps).Some?
    ensures TotalProgress(Run(c, s, steps).value) >= TotalProgress(s)
    ensures Run(c, s, steps).value.source == s.source
    decreases |steps|
  {
    hide Next, TotalProgress;
    if steps != [] {
      ProgressStep(c, s, steps[0]);
      RunProgress(c, Next(c, s, steps[0]).value, steps[1..]);
    }
  }

  /** `Finished` looks twice, at the progress under the lock and later at the tasks without it; what it
      finds was true at once, at the second look. */
  lemma FinishedInTwoLooks(c: Config, s: State, steps: seq<Step>)
    requires Run(c, s, steps).Some? && TotalProgress(s) >= s.Total() && !InProgress(Run(c, s, steps).value)
    ensures Finished(Run(c, s, steps).value)
  {
    hide Run, TotalProgress, InProgress;
    RunProgress(c, s, steps);
  }

  // ---------- configurations that never overshoot ----------

  /** Nothing is ever read, nothing is ever split, or single bytes are read and only readers split. */
  predicate Truthful(c: Config)
  {
    c.bufferSize == 0 || c.concurrency <= 0 || (c.bufferSize == 1 && c.concurrency == 1)
  }

  predicate WithinEnd(seg: Segment)
  {
    seg.downloaded + (if seg.phase.Reading? then seg.phase.toRead else 0) <= seg.length
  }

  /** Even with what is being read, no segment gets past its end. */
  predicate Careful(c: Config, s: State)
  {
    && (forall i :: 0 <= i < |s.segments| ==>
          WithinEnd(s.segments[i]) && (c.bufferSize == 0 ==> s.segments[i].downloaded == 0))
    && (s.monitor.Picked? || s.monitor.Sized? ==> c.bufferSize == 0)
  }

  lemma PickCareful(c: Config, s: State)
    requires Truthful(c) && Core(c, s) && Careful(c, s) && PickStep(c, s).Some?
    ensures Careful(c, PickStep(c, s).value)
  {
    hide Spans, CutForOffset, Active, Best;
    var t := PickStep(c, s).value;
    if t.monitor.Launching? {
      var (b, k) := CutForOffset(s, s.priority.value).value;
      CutSource(s, s.priority.value);
      IncompleteIsActive(s.segments, b);
      SegmentExtent(c, s, b);
    } else if t.monitor.Picked? {
      IncompleteIsActive(s.segments, t.monitor.seg);
    }
  }

  lemma NextCareful(c: Config, s: State, step: Step)
    requires Truthful(c) && Core(c, s) && Careful(c, s) && Next(c, s, step).Some?
    ensures Careful(c, Next(c, s, step).value)
  {
    hide Spans, PickStep, CorrectAt, Overwrite, SumDownloaded;
    match step {
      case Store(i, n) => SegmentExtent(c, s, i);
      case Pick => PickCareful(c, s);
      case Split => SegmentExtent(c, s, s.monitor.seg);
      case _ =>
    }
  }

  lemma {:induction false} RunCareful(c: Config, s: State, steps: seq<Step>)
    requires Truthful(c) && Core(c, s) && Careful(c, s) && Run(c, s, steps).Some?
    ensures var t := Run(c, s, steps).value; Core(c, t) && Careful(c, t) && t.source == s.source
    decreases |steps|
  {
    hide Core, Next, Careful, Truthful;
    if steps != [] {
      NextCore(c, s, steps[0]);
      NextMonotone(c, s, steps[0]);
      NextCareful(c, s, steps[0]);
      RunCareful(c, Next(c, s, steps[0]).value, steps[1..]);
    }
  }

  /** In such a configuration no run overshoots. */
  lemma TruthfulRun(c: Config, source: seq<byte>, steps: seq<Step>)
    requires Truthful(c) && Run(c, Init(source), steps).Some?
    ensures var t := Run(c, Init(source), steps).value;
            Core(c, t) && NoOvershoot(t) && t.source == source
  {
    hide Core, Run, Truthful;
    InitInv(c, source);
    RunCareful(c, Init(source), steps);
  }

  // ---------- a download that looks finished too early ----------

  /** The download looks finished, but its last byte is not there and its local place still zero. */
  ghost predicate Premature(s: State, source: seq<byte>)
  {
    && s.source == source && |s.buffer| == |source| > 0
    && Finished(s) && !s.cancelled && !Available(s, |source| - 1) && s.buffer[|source| - 1] == 0
  }

  lemma OverwriteKeeps(s: seq<byte>, at: nat, t: seq<byte>, x: nat)
    requires at + |t| <= x < |s|
    ensures Overwrite(s, at, t)[x] == s[x]
  {
  }

  /** A state of the runs below. */
  ghost predicate Early(s: State, source: seq<byte>, segments: seq<Segment>, tasks: set<nat>, monitor: Monitor)
  {
    s == Calm(source, s.buffer, segments, tasks, monitor) && |source| == |s.buffer| > 0 && s.buffer[|source| - 1] == 0
  }

  lemma ThenEarlyDownload(c: Config, s0: State, steps: seq<Step>, s: State, source: seq<byte>, i: nat, n: nat)
    returns (longer: seq<Step>, t: State)
    requires Run(c, s0, steps) == Some(s) && i < |s.segments| && s.segments[i].phase.Idle?
    requires Early(s, source, s.segments, s.tasks, s.monitor)
    requires Buffers(n, c.bufferSize)
    requires n <= s.segments[i].Remaining() && 0 <= s.segments[i].offset + s.segments[i].downloaded
    requires s.segments[i].offset + s.segments[i].downloaded + n < |source|
    ensures Run(c, s0, longer) == Some(t)
    ensures var segments := s.segments[i := s.segments[i].(downloaded := s.segments[i].downloaded + n)];
            Early(t, source, segments, s.tasks, s.monitor)
    ensures Quiet(steps) ==> Quiet(longer)
  {
    hide Run, Overwrite, Quiet, Buffers;
    longer := ThenDownloadMany(c, s0, steps, s, i, n);
    t := Stored(s, i, n);
    var at := s.segments[i].offset + s.segments[i].downloaded;
    OverwriteKeeps(s.buffer, at, source[at..at + n], |source| - 1);
  }

  /** The first task ends, the second is started but not yet in the task list. */
  lemma ThenHandOver(c: Config, s0: State, steps: seq<Step>, s: State, source: seq<byte>, a: Segment, b: Segment)
    returns (longer: seq<Step>, t: State)
    requires Run(c, s0, steps) == Some(s) && Early(s, source, [a, b], {0}, Launching(1))
    requires a.phase.Idle? && a.Completed()
    ensures Run(c, s0, longer) == Some(t)
    ensures Early(t, source, [a.(phase := Exited), b.(phase := Idle)], {0}, Launched(1))
    ensures Quiet(steps) ==> Quiet(longer)
  {
    hide Run, Quiet;
    longer := ThenExit(c, s0, steps, s, 0);
    var exited := Updated(s, 0, a.(phase := Exited));
    t := LaunchStep(exited).value;
    longer := Then(c, s0, longer, exited, Launch, t);
    assert t.segments == [a.(phase := Exited), b.(phase := Idle)];
  }

  /** A reader asks for the second byte while the whole first buffer is being read. */
  lemma EarlyRequest(c: Config, source: seq<byte>) returns (steps: seq<Step>, s: State)
    requires c.bufferSize >= 2 && c.concurrency >= 1 && |source| == 2 * c.bufferSize
    ensures Run(c, Init(source), steps) == Some(s)
    ensures s == Calm(source, Zeros(|source|),
                      [Segment(0, 1, 0, Reading(c.bufferSize)), Segment(1, |source| - 1, 0, Unstarted)],
                      {0}, Launching(1))
  {
    hide Run, Zeros;
    var s0, reading := Init(source), Segment(0, |source|, 0, Reading(c.bufferSize));
    Sums(reading, reading, reading);
    OneActive([reading], 0);
    steps := Started(c, s0);
    var planned := Calm(source, s0.buffer, [reading], {0}, Watching);
    assert s0.segments[0 := reading] == [reading];
    steps := Then(c, s0, steps, s0, Plan(0), planned);
    var asked := planned.(priority := Some(1));
    steps := Then(c, s0, steps, planned, Request(1), asked);
    var entering := asked.(monitor := Entering);
    steps := Then(c, s0, steps, asked, Check, entering);
    assert FindSource([reading], 1) == Some(0);
    s := Calm(source, s0.buffer, Cut([reading], 0, |source| - 1), {0}, Launching(1));
    steps := Then(c, s0, steps, entering, Pick, s);
    assert s.segments == [reading.(length := 1), Segment(1, |source| - 1, 0, Unstarted)];
  }

  /** The buffer read first and the buffer of the second task overlap in all but one byte each. */
  lemma EarlyByRequest(c: Config, source: seq<byte>) returns (steps: seq<Step>, s: State)
    requires c.bufferSize >= 2 && c.concurrency >= 1 && |source| == 2 * c.bufferSize
    ensures Run(c, Init(source), steps) == Some(s)
    ensures Early(s, source, [Segment(0, 1, c.bufferSize, Exited), Segment(1, |source| - 1, c.bufferSize, Idle)],
                  {0}, Launched(1))
  {
    hide Run, Init, Overwrite;
    steps, s := EarlyRequest(c, source);
    var t := Stored(s, 0, c.bufferSize);
    steps := Then(c, Init(source), steps, s, Store(0, c.bufferSize), t);
    OverwriteKeeps(s.buffer, 0, source[..c.bufferSize], |source| - 1);
    var a, b := Segment(0, 1, c.bufferSize, Idle), Segment(1, |source| - 1, 0, Unstarted);
    assert t.segments == [a, b];
    steps, s := ThenHandOver(c, Init(source), steps, t, source, a, b);
    steps, s := ThenEarlyDownload(c, Init(source), steps, s, source, 1, c.bufferSize);
  }

  /** Half of a file whose halves are at least two full buffers, and large enough to be split. */
  function HalfFile(c: Config): (half: nat)
    requires c.bufferSize > 0
    ensures half >= MB && half >= 2 * c.bufferSize && Buffers(half - c.bufferSize, c.bufferSize)
  {
    assert Buffers(2 * c.bufferSize - c.bufferSize, c.bufferSize);
    FullBuffers(2 * c.bufferSize, c.bufferSize)
  }

  /** The least number of full buffers from `k` on that makes up a megabyte. */
  function FullBuffers(k: nat, bufferSize: nat): (full: nat)
    requires 0 < bufferSize <= k && Buffers(k - bufferSize, bufferSize)
    ensures full >= MB && full >= k && Buffers(full - bufferSize, bufferSize)
    decreases MB - k
  {
    if k >= MB then k else FullBuffers(k + bufferSize, bufferSize)
  }

  /** The first task reads a buffer of the second half while the monitor is about to split that off. No
      reader asks for anything. */
  lemma EarlyBySplit(c: Config, source: seq<byte>) returns (steps: seq<Step>, s: State)
    requires c.bufferSize > 0 && c.concurrency > 1 && |source| == 2 * HalfFile(c)
    ensures Run(c, Init(source), steps) == Some(s) && Quiet(steps)
    ensures var half, b := HalfFile(c), c.bufferSize;
            Early(s, source, [Segment(0, half, half + b, Exited), Segment(half, half, half - b, Idle)], {0}, Launched(1))
  {
    hide Run, Init, Overwrite, Quiet, HalfFile;
    var half, size := HalfFile(c), c.bufferSize;
    assert Buffers(half, size) && Buffers(half + size, size);
    steps, s := SegmentRuns.Halving(c, source, half);
    steps, s := ThenEarlyDownload(c, Init(source), steps, s, source, 0, half + size);
    assert s.segments == [Segment(0, 2 * half, half + size, Idle)];
    steps := ThenSplit(c, Init(source), steps, s);
    var a, b := Segment(0, half, half + size, Idle), Segment(half, half, 0, Unstarted);
    s := s.(segments := Cut(s.segments, 0, half), monitor := Launching(1));
    assert s.segments == [a, b];
    steps, s := ThenHandOver(c, Init(source), steps, s, source, a, b);
    steps, s := ThenEarlyDownload(c, Init(source), steps, s, source, 1, half - size);
  }

  /** The end of both runs: the progress counts a stretch twice, and the only tracked task has ended. */
  lemma EarlySeen(s: State, source: seq<byte>, a: Segment, b: Segment)
    requires Early(s, source, [a, b], {0}, Launched(1)) && a.phase.Exited? && a.downloaded + b.downloaded == |source|
    requires a.offset + a.length <= |source| - 1 && b.offset + b.downloaded <= |source| - 1 && a.downloaded > a.length
    ensures Premature(s, source) && !Settled(s) && !NoOvershoot(s)
  {
    assert s.segments[0] == a && 1 !in s.tasks;
    Sums(a, b, b);
  }

  /** For which size of file the runs below are built. */
  function PrematureSize(c: Config): nat
    requires c.bufferSize > 0
  {
    if c.concurrency > 1 then 2 * HalfFile(c) else 2 * c.bufferSize
  }

  /** In every other configuration a download can look finished, and a reader be given a byte that was
      never downloaded: its segment is new, the task of that segment is not in the list yet, and the
      progress counts a stretch twice. Every read in these runs fills the buffer it was asked for. With a
      concurrency of two or more it takes no request of a reader. */
  lemma PrematureFinish(c: Config, source: seq<byte>) returns (steps: seq<Step>)
    requires !Truthful(c) && |source| == PrematureSize(c)
    ensures Run(c, Init(source), steps).Some? && (c.concurrency > 1 ==> Quiet(steps))
    ensures var s := Run(c, Init(source), steps).value;
            && Premature(s, source) && !Settled(s) && !NoOvershoot(s)
            && MayProceed(s, |source| - 1, 1) && ReadResult(s, |source| - 1, 1) == [0]
  {
    hide Run, Init, Finished, Available, Settled, NoOvershoot;
    var s;
    if c.concurrency > 1 {
      steps, s := EarlyBySplit(c, source);
    } else {
      steps, s := EarlyByRequest(c, source);
    }
    EarlySeen(s, source, s.segments[0], s.segments[1]);
  }

  // ---------- exactly when reads and the end of the download can be trusted ----------

  /** One read: the reader stops waiting after the steps `before` and takes its bytes after `after`. */
  ghost predicate ReadRight(c: Config, source: seq<byte>, before: seq<Step>, after: seq<Step>, position: nat, count: nat)
  {
    var s := Run(c, Init(source), before);
    s.Some? && 0 < count && position + count <= |source| && MayProceed(s.value, position, count)
    && Run(c, s.value, after).Some? ==>
      var t := Run(c, s.value, after).value;
      && |t.buffer| == |source|
      && var bytes := ReadResult(t, position, count);
         0 < |bytes| && bytes == source[position..position + |bytes|]
  }

  /** Every read in every run delivers bytes of the remote file. */
  ghost predicate AlwaysReadsRight(c: Config)
  {
    forall source, before, after, position, count :: ReadRight(c, source, before, after, position, count)
  }

  /** In every run, a download that looks finished has made the local file the remote one. */
  ghost predicate AlwaysComplete(c: Config)
  {
    forall source, steps :: Run(c, Init(source), steps).Some? && Finished(Run(c, Init(source), steps).value)
      ==> Run(c, Init(source), steps).value.buffer == source
  }

  lemma TruthfulReads(c: Config, source: seq<byte>, before: seq<Step>, after: seq<Step>, position: nat, count: nat)
    requires Truthful(c)
    ensures ReadRight(c, source, before, after, position, count)
  {
    hide Run, Core, Init, NoOvershoot, Truthful, ReadResult, MayProceed, AvailableRun;
    var s := Run(c, Init(source), before);
    if s.Some? && 0 < count && position + count <= |source| && MayProceed(s.value, position, count)
       && Run(c, s.value, after).Some? {
      TruthfulRun(c, source, before);
      ReadsAreRight(c, s.value, after, position, count);
    }
  }

  lemma TruthfulFinish(c: Config, source: seq<byte>, steps: seq<Step>)
    requires Truthful(c) && Run(c, Init(source), steps).Some? && Finished(Run(c, Init(source), steps).value)
    ensures Run(c, Init(source), steps).value.buffer == source
  {
    hide Run, Core, NoOvershoot, Truthful;
    var s := Run(c, Init(source), steps).value;
    TruthfulRun(c, source, steps);
    ProgressExactWithoutOvershoot(c, s);
    CompletedIsCopied(c, s);
  }

  /** A file whose bytes are all different from those of a fresh local file. */
  function Ones(n: nat): (o: seq<byte>)
    ensures |o| == n && forall i :: 0 <= i < n ==> o[i] == 1
  {
    seq(n, _ => 1)
  }

  /** Exactly the truthful configurations give every reader the right bytes, and exactly they never call
      an incomplete download finished. The repository's own, 1 MiB and 4, is not one of them. */
  lemma FinishIff(c: Config)
    ensures AlwaysReadsRight(c) <==> Truthful(c)
    ensures AlwaysComplete(c) <==> Truthful(c)
    ensures !Truthful(Config(MB, 4))
  {
    assert !Truthful(Config(MB, 4));
    hide Run, Init, Truthful, Finished, MayProceed, ReadResult;
    if Truthful(c) {
      forall source, before, after, position, count
        ensures ReadRight(c, source, before, after, position, count)
      {
        TruthfulReads(c, source, before, after, position, count);
      }
      forall source, steps | Run(c, Init(source), steps).Some? && Finished(Run(c, Init(source), steps).value)
        ensures Run(c, Init(source), steps).value.buffer == source
      {
        TruthfulFinish(c, source, steps);
      }
    } else {
      var source := Ones(PrematureSize(c));
      var steps := PrematureFinish(c, source);
      var s := Run(c, Init(source), steps).value;
      var none := Started(c, s);
      var last := |source| - 1;
      assert ReadResult(s, last, 1)[0] != source[last..last + 1][0];
      assert !ReadRight(c, source, steps, none, last, 1);
      assert s.buffer != source;
    }
  }
}
