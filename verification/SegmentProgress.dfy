/** That a segmented download which is not cancelled can always go on, and ends only when it is complete. */
module SegmentProgress {
  import opened Bytes
  import opened Segments
  import opened SegmentsSafety
  import opened SegmentReads
  import opened SegmentRuns
  import opened SegmentFinish

  /** A task of the download takes this step. */
  predicate TaskStep(step: Step) { step.Plan? || step.Store? || step.Retry? }

  /** When no task can take a further step and the monitor is not about to start one, a download that was
      not cancelled is complete. */
  lemma StuckIsComplete(c: Config, s: State)
    requires Core(c, s) && !s.cancelled && !s.monitor.Launching?
    requires forall step :: TaskStep(step) ==> Next(c, s, step).None?
    ensures AllCompleted(s) && s.buffer == s.source
  {
    hide Spans;
    forall i | 0 <= i < |s.segments|
      ensures s.segments[i].Completed()
    {
      SegmentExtent(c, s, i);
      assert TaskStep(Plan(i)) && TaskStep(Retry(i));
      assert PlanStep(c, s, i).None? && RetryStep(s, i).None?;
    }
    CompletedIsCopied(c, s);
  }

  /** A run that still goes on, in a state that differs from `s` in segment `i` and the local file only. */
  ghost predicate Follows(c: Config, s0: State, steps: seq<Step>, s: State, t: State, i: nat)
  {
    && Run(c, s0, steps) == Some(t) && Core(c, t) && i < |s.segments| == |t.segments|
    && t == s.(segments := t.segments, buffer := t.buffer)
    && forall j :: 0 <= j < |s.segments| && j != i ==> t.segments[j] == s.segments[j]
  }

  /** The task of an incomplete segment is idle or reading, unless it is about to be launched. */
  lemma TaskAlive(c: Config, s: State, i: nat)
    requires Core(c, s) && !s.cancelled && !s.monitor.Launching? && i < |s.segments| && !s.segments[i].Completed()
    ensures s.segments[i].phase.Idle? || s.segments[i].phase.Reading?
  {
    hide Spans;
    SegmentExtent(c, s, i);
  }

  lemma ThenTask(c: Config, s0: State, steps: seq<Step>, s: State, t: State, i: nat, step: Step)
    returns (longer: seq<Step>, u: State)
    requires Follows(c, s0, steps, s, t, i) && TaskStep(step) && step.i == i && Next(c, t, step).Some?
    ensures u == Next(c, t, step).value && Follows(c, s0, longer, s, u, i)
  {
    hide Run, Core, Overwrite;
    u := Next(c, t, step).value;
    NextCore(c, t, step);
    longer := Then(c, s0, steps, t, step, u);
  }

  /** What is being read arrives, and one buffer more: less remains of an incomplete segment. */
  lemma ThenBuffer(c: Config, s0: State, steps: seq<Step>, s: State, t: State, i: nat)
    returns (longer: seq<Step>, u: State)
    requires c.bufferSize > 0 && Follows(c, s0, steps, s, t, i)
    requires !s.cancelled && !s.monitor.Launching? && !t.segments[i].Completed()
    ensures Follows(c, s0, longer, s, u, i) && u.segments[i].Remaining() < t.segments[i].Remaining()
  {
    hide Run, Core, Overwrite;
    TaskAlive(c, t, i);
    longer, u := steps, t;
    if t.segments[i].phase.Reading? {
      var n := u.segments[i].phase.toRead;
      StorePossible(c, u, i, n);
      longer, u := ThenTask(c, s0, longer, s, u, i, Store(i, n));
    }
    if !u.segments[i].Completed() {
      longer, u := ThenTask(c, s0, longer, s, u, i, Plan(i));
      var n := u.segments[i].phase.toRead;
      StorePossible(c, u, i, n);
      longer, u := ThenTask(c, s0, longer, s, u, i, Store(i, n));
    }
  }

  lemma {:induction false} ThenFinishSegment(c: Config, s0: State, steps: seq<Step>, s: State, t: State, i: nat)
    returns (longer: seq<Step>, u: State)
    requires c.bufferSize > 0 && Follows(c, s0, steps, s, t, i) && !s.cancelled && !s.monitor.Launching?
    ensures Follows(c, s0, longer, s, u, i) && u.segments[i].Completed()
    decreases t.segments[i].Remaining()
  {
    hide Run, Core;
    longer, u := steps, t;
    if !t.segments[i].Completed() {
      longer, u := ThenBuffer(c, s0, steps, s, t, i);
      longer, u := ThenFinishSegment(c, s0, longer, s, u, i);
    }
  }

  lemma ThenLaunchAny(c: Config, s: State) returns (steps: seq<Step>, t: State)
    requires Core(c, s) && !s.cancelled
    ensures Run(c, s, steps) == Some(t) && Core(c, t)
    ensures !t.cancelled && !t.monitor.Launching? && t.source == s.source
  {
    hide Run, Tiles, SegmentOk, MonitorFits;
    steps := Started(c, s);
    t := s;
    if s.monitor.Launching? {
      t := LaunchStep(s).value;
      NextCore(c, s, Launch);
      steps := Then(c, s, steps, s, Launch, t);
    }
  }

  /** From every state of a download that is not cancelled, some run completes it. */
  lemma CanFinish(c: Config, s: State) returns (steps: seq<Step>)
    requires c.bufferSize > 0 && Core(c, s) && !s.cancelled
    ensures Run(c, s, steps).Some?
    ensures AllCompleted(Run(c, s, steps).value) && Run(c, s, steps).value.buffer == s.source
  {
    hide Run, Core;
    var t;
    steps, t := ThenLaunchAny(c, s);
    var count := |t.segments|;
    for i := 0 to count
      invariant Run(c, s, steps) == Some(t) && Core(c, t) && !t.cancelled && !t.monitor.Launching? && t.source == s.source
      invariant |t.segments| == count && forall j :: 0 <= j < i ==> t.segments[j].Completed()
    {
      steps, t := ThenFinishSegment(c, s, steps, t, t, i);
    }
    CompletedIsCopied(c, t);
  }

  /** A download that is not cancelled can still be completed, from every state of every run. */
  ghost predicate CanAlwaysFinish(c: Config)
  {
    forall source, steps :: Run(c, Init(source), steps).Some? && !Run(c, Init(source), steps).value.cancelled
      ==> Finishable(c, Run(c, Init(source), steps).value)
  }

  ghost predicate Finishable(c: Config, s: State)
  {
    exists steps :: Run(c, s, steps).Some? && AllCompleted(Run(c, s, steps).value)
  }

  /** Without a buffer nothing ever arrives. */
  lemma NothingArrives(c: Config, source: seq<byte>, steps: seq<Step>)
    requires c.bufferSize == 0 && source != [] && Run(c, Init(source), steps).Some?
    ensures !AllCompleted(Run(c, Init(source), steps).value)
  {
    hide Run;
    var t := Run(c, Init(source), steps).value;
    InitInv(c, source);
    RunCareful(c, Init(source), steps);
    assert Covered(t.segments, 0);
  }

  /** Exactly the configurations with a buffer never reach a dead end. */
  lemma FinishableIff(c: Config)
    ensures CanAlwaysFinish(c) <==> c.bufferSize > 0
  {
    hide Run, Core, AllCompleted;
    if c.bufferSize > 0 {
      forall source, steps | Run(c, Init(source), steps).Some? && !Run(c, Init(source), steps).value.cancelled
        ensures Finishable(c, Run(c, Init(source), steps).value)
      {
        InitInv(c, source);
        RunCore(c, Init(source), steps);
        var more := CanFinish(c, Run(c, Init(source), steps).value);
      }
    } else {
      var source: seq<byte> := [1];
      var start := Started(c, Init(source));
      forall steps | Run(c, Init(source), steps).Some?
        ensures !AllCompleted(Run(c, Init(source), steps).value)
      {
        NothingArrives(c, source, steps);
      }
      assert !Finishable(c, Run(c, Init(source), start).value);
    }
  }

  // ---------- what a reader waits for ----------

  /** A reader that asks for this can never stop waiting. */
  ghost predicate WaitsForEver(c: Config, s: State, position: nat, count: nat)
  {
    forall steps :: Run(c, s, steps).Some? ==> !MayProceed(Run(c, s, steps).value, position, count)
  }

  lemma CompletedNeverStops(c: Config, s: State, x: int)
    requires Core(c, s) && AllCompleted(s) && 0 <= x < s.Total()
    ensures !Stops(s, x)
  {
    hide Tracked, MonitorFits, SegmentOk;
    assert Covered(s.segments, x);
    var i := FirstCovering(s.segments, x).value;
    assert s.segments[i].Completed();
  }

  /** When all segments are complete, every request within the file is available. */
  lemma CompletedServes(c: Config, s: State, position: nat, count: nat)
    requires Core(c, s) && AllCompleted(s) && position + count <= s.Total()
    ensures AvailableRun(s, position, count) == count
  {
    hide Core, AllCompleted, Stops;
    var n := AvailableRun(s, position, count);
    if n < count {
      CompletedNeverStops(c, s, position + n);
    }
  }

  /** As long as a download with a buffer is not cancelled, its readers can still be served. */
  lemma ReadersCanBeServed(c: Config, s: State, position: nat, count: nat)
    requires c.bufferSize > 0 && Core(c, s) && !s.cancelled && position + count <= s.Total()
    ensures !WaitsForEver(c, s, position, count)
  {
    hide Run, Core, AllCompleted, AvailableRun, Finished;
    var steps := CanFinish(c, s);
    RunCore(c, s, steps);
    RunMonotone(c, s, steps);
    CompletedServes(c, Run(c, s, steps).value, position, count);
  }

  /** A cancelled download of which nothing goes on any more. */
  predicate Frozen(s: State)
  {
    && s.cancelled && (s.monitor.Watching? || s.monitor.Stopped?)
    && forall i :: 0 <= i < |s.segments| ==> s.segments[i].phase.Exited?
  }

  /** What a reader looks at stays as it is. */
  lemma {:induction false} FrozenStays(c: Config, s: State, steps: seq<Step>)
    requires Frozen(s) && Run(c, s, steps).Some?
    ensures var t := Run(c, s, steps).value;
            Frozen(t) && t.source == s.source && t.buffer == s.buffer && t.segments == s.segments && t.tasks == s.tasks
    decreases |steps|
  {
    if steps != [] {
      FrozenStays(c, Next(c, s, steps[0]).value, steps[1..]);
    }
  }

  /** A reader of such a download waits for ever exactly when what it asks for is not all there and the
      download is not as long as the file: waiting, it never looks at the cancellation. */
  lemma FrozenWaitsIff(c: Config, s: State, position: nat, count: nat)
    requires Frozen(s)
    ensures WaitsForEver(c, s, position, count)
      <==> AvailableRun(s, position, count) < count && TotalProgress(s) < s.Total()
  {
    hide Run, AvailableRun, TotalProgress, Next;
    var none := Started(c, s);
    forall steps | Run(c, s, steps).Some?
      ensures MayProceed(Run(c, s, steps).value, position, count) <==> MayProceed(s, position, count)
    {
      FrozenStays(c, s, steps);
      SameAvailable(s, Run(c, s, steps).value, position, count);
    }
  }

  lemma {:induction false} SameAvailable(s: State, t: State, position: int, count: nat)
    requires t.segments == s.segments && t.source == s.source && t.tasks == s.tasks
    ensures AvailableRun(t, position, count) == AvailableRun(s, position, count)
    ensures TotalProgress(t) == TotalProgress(s) && InProgress(t) == InProgress(s)
    decreases count
  {
    hide FirstCovering, SumDownloaded, AvailableEnd, AvailableRun, Stops;
    if count > 0 {
      AvailableRunTurn(s, position, count);
      AvailableRunTurn(t, position, count);
      var i := FirstCovering(s.segments, position);
      if i.Some? && AvailableEnd(s.segments[i.value]) > position {
        var end := AvailableEnd(s.segments[i.value]);
        var step := if end - position < count then end - position else count;
        SameAvailable(s, t, position + step, count - step);
      }
    }
  }

  /** Every download of a file that is not empty can be cancelled so that all its readers wait for ever. */
  lemma CancelStrands(c: Config, source: seq<byte>) returns (steps: seq<Step>)
    requires source != []
    ensures Run(c, Init(source), steps).Some? && Frozen(Run(c, Init(source), steps).value)
    ensures forall position: nat, count: nat :: 0 < count && position + count <= |source| ==>
      WaitsForEver(c, Run(c, Init(source), steps).value, position, count)
  {
    hide Run, WaitsForEver, Quiet;
    var s := Init(source);
    steps := Started(c, s);
    var cancelled := s.(cancelled := true);
    steps := Then(c, s, steps, s, Cancel, cancelled);
    var t := Updated(cancelled, 0, s.segments[0].(phase := Exited));
    steps := Then(c, s, steps, cancelled, Plan(0), t);
    assert SumDownloaded(t.segments[1..]) == 0;
    forall position: nat, count: nat | 0 < count && position + count <= |source|
      ensures WaitsForEver(c, t, position, count)
    {
      assert !Available(t, position);
      assert AvailableRun(t, position, count) > 0 ==> Available(t, position);
      FrozenWaitsIff(c, t, position, count);
    }
  }
}
