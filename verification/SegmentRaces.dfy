/** The segments divide the file in all runs exactly for read buffers up to the split limit and a byte. */
module SegmentRaces {
  import opened Bytes
  import opened Segments
  import opened SegmentsSafety
  import opened SegmentReads
  import opened SegmentRuns

  /** A state of the run below: a file of 4 MiB, nobody waits, nothing is cancelled. */
  ghost predicate Large(s: State, source: seq<byte>, segments: seq<Segment>, tasks: set<nat>, monitor: Monitor)
  {
    s == Calm(source, s.buffer, segments, tasks, monitor) && |source| == |s.buffer| == 4 * MB
  }

  /** The first split, with a large read in flight. */
  lemma LargeSplit(c: Config, source: seq<byte>, k: nat) returns (steps: seq<Step>, s: State)
    requires !Sound(c) && |source| == 4 * MB && k == if c.bufferSize < 4 * MB then c.bufferSize else 4 * MB
    ensures Run(c, Init(source), steps) == Some(s)
    ensures Large(s, source, [Segment(0, 2 * MB, 0, Reading(k)), Segment(2 * MB, 2 * MB, 0, Unstarted)], {0}, Launching(1))
  {
    hide Run, Init, Zeros, Quiet;
    var whole := Segment(0, 4 * MB, 0, Idle);
    steps, s := Halving(c, source, 2 * MB);
    var planned := Updated(s, 0, whole.(phase := Reading(k)));
    steps := Then(c, Init(source), steps, s, Plan(0), planned);
    steps := ThenSplit(c, Init(source), steps, planned);
    s := planned.(segments := Cut(planned.segments, 0, 2 * MB), monitor := Launching(1));
    assert s.segments == [Segment(0, 2 * MB, 0, Reading(k)), Segment(2 * MB, 2 * MB, 0, Unstarted)];
  }

  /** The split-off half is started. */
  lemma LargeLaunched(c: Config, source: seq<byte>, k: nat) returns (steps: seq<Step>, s: State)
    requires !Sound(c) && |source| == 4 * MB && k == if c.bufferSize < 4 * MB then c.bufferSize else 4 * MB
    ensures Run(c, Init(source), steps) == Some(s)
    ensures Large(s, source, [Segment(0, 2 * MB, 0, Reading(k)), Segment(2 * MB, 2 * MB, 0, Idle)], {0, 1}, Watching)
  {
    hide Run, Init, Sound;
    var t;
    steps, t := LargeSplit(c, source, k);
    steps := ThenLaunch(c, Init(source), steps, t);
    var a, b := Segment(0, 2 * MB, 0, Reading(k)), Segment(2 * MB, 2 * MB, 0, Idle);
    assert t.segments[1 := b] == [a, b];
    assert t.tasks + {1} == {0, 1};
    s := Calm(source, t.buffer, [a, b], {0, 1}, Watching);
  }

  /** And downloaded, by one read. */
  lemma LargeFirst(c: Config, source: seq<byte>, k: nat) returns (steps: seq<Step>, s: State)
    requires !Sound(c) && |source| == 4 * MB && k == if c.bufferSize < 4 * MB then c.bufferSize else 4 * MB
    ensures Run(c, Init(source), steps) == Some(s)
    ensures Large(s, source, [Segment(0, 2 * MB, 0, Reading(k)), Segment(2 * MB, 2 * MB, 2 * MB, Idle)], {0, 1}, Watching)
  {
    assert c.bufferSize > 2 * MB;
    hide Run, Init, Sound, Overwrite;
    var t;
    steps, t := LargeLaunched(c, source, k);
    var a, b := Segment(0, 2 * MB, 0, Reading(k)), Segment(2 * MB, 2 * MB, 2 * MB, Idle);
    steps := ThenDownload(c, Init(source), steps, t, 1, 2 * MB);
    assert t.segments[1 := b] == [a, b];
    s := Stored(t, 1, 2 * MB);
  }

  /** A second choice of the monitor, overtaken by the read in flight. */
  lemma LargeOvertaken(c: Config, source: seq<byte>, k: nat) returns (steps: seq<Step>, s: State)
    requires !Sound(c) && |source| == 4 * MB && k == if c.bufferSize < 4 * MB then c.bufferSize else 4 * MB
    ensures Run(c, Init(source), steps) == Some(s)
    ensures Large(s, source, [Segment(0, 2 * MB, k, Idle), Segment(2 * MB, 2 * MB, 2 * MB, Idle)], {0, 1}, Picked(0))
  {
    hide Run, Init, Overwrite, Cut, Best;
    steps, s := LargeFirst(c, source, k);
    Sums(s.segments[0], s.segments[1], s.segments[1]);
    steps := ThenChoose(c, Init(source), steps, s, 0);
    s := s.(monitor := Picked(0));
    steps := Then(c, Init(source), steps, s, Store(0, k), Stored(s, 0, k));
    s := Stored(s, 0, k);
  }

  /** With a larger read buffer, a read in flight can overtake the end of its segment by two bytes or
      more: the monitor then splits off a negative length, and the segments overlap. */
  lemma LargeBufferBreaksTiling(c: Config, source: seq<byte>) returns (steps: seq<Step>)
    requires !Sound(c) && |source| == 4 * MB
    ensures Run(c, Init(source), steps).Some?
    ensures !Tiles(Run(c, Init(source), steps).value.segments, |source|)
  {
    hide Run, Init, Overwrite;
    var s;
    var k: nat := if c.bufferSize < 4 * MB then c.bufferSize else 4 * MB;
    steps, s := LargeOvertaken(c, source, k);
    var b := s.segments[1];
    var split := Half(2 * MB - k);
    steps := ThenSize(c, Init(source), steps, s);
    s := s.(monitor := Sized(0, split));
    steps := ThenSplit(c, Init(source), steps, s);
    s := s.(segments := Cut(s.segments, 0, split), monitor := Launching(2));
    assert s.segments[0] == Segment(0, 2 * MB - split, k, Idle) && s.segments[1] == b && split < 0;
    assert !Apart(s.segments[0], s.segments[1]);
  }

  /** The segments divide the file in every state of every run. */
  ghost predicate AlwaysTiles(c: Config)
  {
    forall source, steps :: Run(c, Init(source), steps).Some? ==> Tiles(Run(c, Init(source), steps).value.segments, |source|)
  }

  /** Exactly when that is so: the read buffer is at most one byte larger than the split limit, or the
      monitor never splits because one connection is the most it may have. */
  lemma TilingIff(c: Config)
    ensures AlwaysTiles(c) <==> c.bufferSize <= 2_097_153 || c.concurrency <= 1
  {
    hide Run, Tiles;
    if Sound(c) {
      forall source, steps | Run(c, Init(source), steps).Some?
        ensures Tiles(Run(c, Init(source), steps).value.segments, |source|)
      {
        InitInv(c, source);
        RunKeeps(c, Init(source), steps);
        RunMonotone(c, Init(source), steps);
        InvTiles(c, Run(c, Init(source), steps).value);
      }
    } else {
      var source := Zeros(4 * MB);
      var steps := LargeBufferBreaksTiling(c, source);
    }
  }
}
