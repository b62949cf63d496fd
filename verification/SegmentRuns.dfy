/** Runs of the segmented download, put together step by step. */
module SegmentRuns {
  import opened Bytes
  import opened Segments

  const MB := 1024 * 1024

  lemma {:induction false} RunAppend(c: Config, s: State, a: seq<Step>, b: seq<Step>)
    requires Run(c, s, a).Some?
    ensures Run(c, s, a + b) == Run(c, Run(c, s, a).value, b)
    decreases |a|
  {
    hide Next;
    if a == [] {
      assert a + b == b;
    } else {
      RunAppend(c, Next(c, s, a[0]).value, a[1..], b);
      assert (a + b)[1..] == a[1..] + b;
    }
  }

  /** No reader asks for a segment. */
  predicate Quiet(steps: seq<Step>) { forall i :: 0 <= i < |steps| ==> !steps[i].Request? }

  /** Extends a known run by one step. */
  lemma Then(c: Config, s0: State, steps: seq<Step>, s: State, step: Step, t: State) returns (longer: seq<Step>)
    requires Run(c, s0, steps) == Some(s) && Next(c, s, step) == Some(t)
    ensures Run(c, s0, longer) == Some(t)
    ensures Quiet(steps) && !step.Request? ==> Quiet(longer)
  {
    hide Next;
    longer := steps + [step];
    RunAppend(c, s0, steps, [step]);
    assert [step][1..] == [];
    assert Run(c, s, [step]) == Run(c, t, []);
  }

  /** What a task does with one buffer: look, then write `n` bytes. */
  function Stored(s: State, i: nat, n: nat): State
    requires i < |s.segments|
    requires 0 <= s.segments[i].offset + s.segments[i].downloaded
    requires s.segments[i].offset + s.segments[i].downloaded + n <= |s.source| == |s.buffer|
  {
    var seg := s.segments[i];
    var at := seg.offset + seg.downloaded;
    Updated(s, i, seg.(downloaded := seg.downloaded + n, phase := Idle)).(buffer := Overwrite(s.buffer, at, s.source[at..at + n]))
  }

  lemma ThenDownload(c: Config, s0: State, steps: seq<Step>, s: State, i: nat, n: nat) returns (longer: seq<Step>)
    requires Run(c, s0, steps) == Some(s) && i < |s.segments| && s.segments[i].phase.Idle? && !s.cancelled
    requires 0 < n == if c.bufferSize < s.segments[i].Remaining() then c.bufferSize else s.segments[i].Remaining()
    requires 0 <= s.segments[i].offset + s.segments[i].downloaded
    requires s.segments[i].offset + s.segments[i].downloaded + n <= |s.source| == |s.buffer|
    ensures Run(c, s0, longer) == Some(Stored(s, i, n))
    ensures Quiet(steps) ==> Quiet(longer)
  {
    hide Quiet, Run, Overwrite;
    var planned := Updated(s, i, s.segments[i].(phase := Reading(n)));
    longer := Then(c, s0, steps, s, Plan(i), planned);
    assert planned.segments[i := Stored(s, i, n).segments[i]] == Stored(s, i, n).segments;
    longer := Then(c, s0, longer, planned, Store(i, n), Stored(s, i, n));
  }

  lemma {:induction false} OneActive(segments: seq<Segment>, b: nat)
    requires b < |segments| && forall i :: 0 <= i < |segments| ==> (segments[i].Completed() <==> i != b)
    ensures Active(segments) == 1
  {
    var rest := segments[1..];
    assert forall i :: 0 <= i < |rest| ==> rest[i] == segments[i + 1];
    if b == 0 {
      NoneActive(rest);
    } else {
      OneActive(rest, b - 1);
    }
  }

  lemma {:induction false} NoneActive(segments: seq<Segment>)
    requires forall i :: 0 <= i < |segments| ==> segments[i].Completed()
    ensures Active(segments) == 0
  {
    if segments != [] {
      NoneActive(segments[1..]);
    }
  }

  /** The monitor goes on, chooses the only incomplete segment and computes half of what remains of it. */
  lemma ThenChoose(c: Config, s0: State, steps: seq<Step>, s: State, b: nat) returns (longer: seq<Step>)
    requires Run(c, s0, steps) == Some(s) && s.monitor.Watching? && s.priority.None? && !s.cancelled
    requires TotalProgress(s) < s.Total() && c.concurrency > 1
    requires b < |s.segments| && forall i :: 0 <= i < |s.segments| ==> (s.segments[i].Completed() <==> i != b)
    requires s.segments[b].Remaining() >= MIN_SPLIT
    ensures Run(c, s0, longer) == Some(s.(monitor := Picked(b)))
    ensures Quiet(steps) ==> Quiet(longer)
  {
    hide Quiet, Run, SumDownloaded;
    OneActive(s.segments, b);
    longer := Then(c, s0, steps, s, Check, s.(monitor := Entering));
    assert Best(s.segments) == Some(b);
    longer := Then(c, s0, longer, s.(monitor := Entering), Pick, s.(monitor := Picked(b)));
  }

  lemma ThenSize(c: Config, s0: State, steps: seq<Step>, s: State) returns (longer: seq<Step>)
    requires Run(c, s0, steps) == Some(s) && s.monitor.Picked? && s.monitor.seg < |s.segments|
    ensures Run(c, s0, longer) == Some(s.(monitor := Sized(s.monitor.seg, Half(s.segments[s.monitor.seg].Remaining()))))
    ensures Quiet(steps) ==> Quiet(longer)
  {
    hide Quiet, Run;
    longer := Then(c, s0, steps, s, Size, SizeStep(s).value);
  }

  lemma ThenSplit(c: Config, s0: State, steps: seq<Step>, s: State) returns (longer: seq<Step>)
    requires Run(c, s0, steps) == Some(s) && s.monitor.Sized? && s.monitor.seg < |s.segments|
    ensures Run(c, s0, longer)
      == Some(s.(segments := Cut(s.segments, s.monitor.seg, s.monitor.split), monitor := Launching(|s.segments|)))
    ensures Quiet(steps) ==> Quiet(longer)
  {
    hide Quiet, Run;
    longer := Then(c, s0, steps, s, Split, SplitStep(s).value);
  }

  /** The monitor runs the task of the new segment and puts it into the list. */
  lemma ThenLaunch(c: Config, s0: State, steps: seq<Step>, s: State) returns (longer: seq<Step>)
    requires Run(c, s0, steps) == Some(s) && s.monitor.Launching? && s.monitor.seg < |s.segments|
    ensures var i := s.monitor.seg;
            Run(c, s0, longer) == Some(Updated(s, i, s.segments[i].(phase := Idle)).(tasks := s.tasks + {i}, monitor := Watching))
    ensures Quiet(steps) ==> Quiet(longer)
  {
    hide Quiet, Run;
    var launched := LaunchStep(s).value;
    longer := Then(c, s0, steps, s, Launch, launched);
    longer := Then(c, s0, longer, launched, Register, RegisterStep(launched).value);
  }

  lemma ThenExit(c: Config, s0: State, steps: seq<Step>, s: State, i: nat) returns (longer: seq<Step>)
    requires Run(c, s0, steps) == Some(s) && i < |s.segments| && s.segments[i].phase.Idle? && s.segments[i].Completed()
    ensures Run(c, s0, longer) == Some(Updated(s, i, s.segments[i].(phase := Exited)))
    ensures Quiet(steps) ==> Quiet(longer)
  {
    hide Quiet, Run;
    longer := Then(c, s0, steps, s, Plan(i), PlanStep(c, s, i).value);
  }

  lemma Sums(a: Segment, b: Segment, d: Segment)
    ensures SumDownloaded([a]) == a.downloaded
    ensures SumDownloaded([a, b]) == a.downloaded + b.downloaded
    ensures SumDownloaded([a, b, d]) == a.downloaded + b.downloaded + d.downloaded
  {
    assert [a, b][1..] == [b] && [a][1..] == [] && [b][1..] == [];
    assert [a, b, d][1..] == [b, d] && [b, d][1..] == [d] && [d][1..] == [];
    assert SumDownloaded([d]) == d.downloaded;
    assert SumDownloaded([b, d]) == b.downloaded + d.downloaded;
  }

  lemma Started(c: Config, s: State) returns (steps: seq<Step>)
    ensures steps == [] && Run(c, s, steps) == Some(s) && Quiet(steps)
  {
    steps := [];
  }

  /** A state that no reader waits in and nobody has cancelled. */
  function Calm(source: seq<byte>, buffer: seq<byte>, segments: seq<Segment>, tasks: set<nat>, monitor: Monitor): State
  {
    State(source, buffer, segments, tasks, None, monitor, false)
  }

  /** `k` bytes are so many full buffers. */
  predicate Buffers(k: int, bufferSize: nat)
    decreases k
  {
    k == 0 || (0 < bufferSize <= k && Buffers(k - bufferSize, bufferSize))
  }

  /** A task downloads full buffers, one after the other. */
  lemma {:induction false} ThenDownloadMany(c: Config, s0: State, steps: seq<Step>, s: State, i: nat, k: nat)
    returns (longer: seq<Step>)
    requires Buffers(k, c.bufferSize) && Run(c, s0, steps) == Some(s) && !s.cancelled
    requires i < |s.segments| && s.segments[i].phase.Idle? && k <= s.segments[i].Remaining()
    requires 0 <= s.segments[i].offset + s.segments[i].downloaded
    requires s.segments[i].offset + s.segments[i].downloaded + k <= |s.source| == |s.buffer|
    ensures Run(c, s0, longer) == Some(Stored(s, i, k))
    ensures Quiet(steps) ==> Quiet(longer)
    decreases k
  {
    hide Run, Overwrite, Quiet;
    if k == 0 {
      longer := steps;
      StoredNothing(s, i);
    } else {
      var b := c.bufferSize;
      longer := ThenDownloadMany(c, s0, steps, s, i, k - b);
      longer := ThenDownload(c, s0, longer, Stored(s, i, k - b), i, b);
      StoredTwice(s, i, k - b, b);
    }
  }

  lemma StoredNothing(s: State, i: nat)
    requires i < |s.segments| && s.segments[i].phase.Idle?
    requires 0 <= s.segments[i].offset + s.segments[i].downloaded <= |s.source| == |s.buffer|
    ensures Stored(s, i, 0) == s
  {
    var at := s.segments[i].offset + s.segments[i].downloaded;
    assert Overwrite(s.buffer, at, s.source[at..at]) == s.buffer;
    assert s.segments[i := s.segments[i]] == s.segments;
  }

  lemma StoredTwice(s: State, i: nat, k: nat, l: nat)
    requires i < |s.segments|
    requires 0 <= s.segments[i].offset + s.segments[i].downloaded
    requires s.segments[i].offset + s.segments[i].downloaded + k + l <= |s.source| == |s.buffer|
    ensures Stored(Stored(s, i, k), i, l) == Stored(s, i, k + l)
  {
    hide Overwrite;
    var at := s.segments[i].offset + s.segments[i].downloaded;
    OverwriteTwice(s.buffer, at, s.source[at..at + k], s.source[at + k..at + k + l]);
    assert s.source[at..at + k] + s.source[at + k..at + k + l] == s.source[at..at + k + l];
    assert Stored(Stored(s, i, k), i, l).segments == Stored(s, i, k + l).segments;
  }

  /** The monitor has decided to halve the only segment. */
  lemma Halving(c: Config, source: seq<byte>, half: nat) returns (steps: seq<Step>, s: State)
    requires c.concurrency > 1 && |source| == 2 * half >= MIN_SPLIT
    ensures Run(c, Init(source), steps) == Some(s) && Quiet(steps)
    ensures s == Calm(source, Zeros(2 * half), [Segment(0, 2 * half, 0, Idle)], {0}, Sized(0, half))
  {
    hide Run, Zeros, Quiet;
    var whole := Segment(0, 2 * half, 0, Idle);
    Sums(whole, whole, whole);
    steps := Started(c, Init(source));
    s := Init(source);
    steps := ThenChoose(c, Init(source), steps, s, 0);
    s := s.(monitor := Picked(0));
    steps := ThenSize(c, Init(source), steps, s);
    s := s.(monitor := Sized(0, half));
  }
}
