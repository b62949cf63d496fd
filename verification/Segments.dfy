/** The segmented download as a state machine: every interleaving of its download tasks, the monitor
    that splits segments, readers that ask for priority, and cancellation. */
module Segments {
  import opened Bytes

  /** A segment is split only when this much of it remains. */
  const MIN_SPLIT := 2 * 1024 * 1024

  /** Where the download task of a segment stands. */
  datatype Phase = Unstarted | Idle | Reading(toRead: nat) | Exited

  datatype Segment = Segment(offset: int, length: int, downloaded: int, phase: Phase)
  {
    predicate Completed() { downloaded >= length }

    function Remaining(): int { length - downloaded }

    predicate Covers(x: int) { offset <= x < offset + length }
  }

  /** Where the monitor stands between its critical sections. */
  datatype Monitor = Watching | Entering | Picked(seg: nat) | Sized(seg: nat, split: int) | Launching(seg: nat) | Launched(seg: nat) | Stopped

  datatype Config = Config(bufferSize: nat, concurrency: int)

  /** `source` is the remote file, `buffer` the local one. `tasks` are the segments whose download task is
      in the list that tells whether anything is in progress. */
  datatype State = State(
    source: seq<byte>, buffer: seq<byte>, segments: seq<Segment>, tasks: set<nat>,
    priority: Option<int>, monitor: Monitor, cancelled: bool)
  {
    function Total(): nat { |source| }
  }

  function Init(source: seq<byte>): State
  {
    State(source, Zeros(|source|), [Segment(0, |source|, 0, Idle)], {0}, None, Watching, false)
  }

  /** One atomic action. */
  datatype Step =
    | Plan(i: nat)             // a task looks at its segment and decides how much to read, or ends
    | Store(i: nat, n: nat)    // a task has read `n` bytes and writes them to the local file
    | Retry(i: nat)            // a task's read has thrown
    | Check                    // the monitor tests whether to go on
    | Pick                     // the monitor's first critical section
    | Size                     // the monitor computes how much to split off, outside the lock
    | Split                    // the monitor's second critical section
    | Launch                   // the monitor runs the task of the new segment
    | Register                 // and puts it into the task list
    | Request(offset: int)     // a slow reader asks for a segment
    | Cancel

  // ---------- parts of the steps ----------

  function SumDownloaded(segments: seq<Segment>): int
  {
    if segments == [] then 0 else segments[0].downloaded + SumDownloaded(segments[1..])
  }

  function SumLengths(segments: seq<Segment>): int
  {
    if segments == [] then 0 else segments[0].length + SumLengths(segments[1..])
  }

  function TotalProgress(s: State): int { SumDownloaded(s.segments) }

  predicate InProgress(s: State)
  {
    exists i :: i in s.tasks && i < |s.segments| && !s.segments[i].phase.Exited?
  }

  predicate Finished(s: State) { TotalProgress(s) >= s.Total() && !InProgress(s) }

  function Active(segments: seq<Segment>): nat
  {
    if segments == [] then 0 else (if segments[0].Completed() then 0 else 1) + Active(segments[1..])
  }

  /** The first of the incomplete segments with the most remaining bytes. */
  function Best(segments: seq<Segment>): (b: Option<nat>)
    ensures b.Some? ==> b.value < |segments| && !segments[b.value].Completed()
    ensures b.Some? ==>
      forall i :: 0 <= i < |segments| && !segments[i].Completed() ==> segments[i].Remaining() <= segments[b.value].Remaining()
    ensures b.Some? ==>
      forall i :: 0 <= i < b.value && !segments[i].Completed() ==> segments[i].Remaining() < segments[b.value].Remaining()
    ensures b.None? ==> forall i :: 0 <= i < |segments| ==> segments[i].Completed()
  {
    if segments == [] then None
    else
      var n := |segments| - 1;
      var b := Best(segments[..n]);
      if segments[n].Completed() then b
      else if b.None? || segments[b.value].Remaining() < segments[n].Remaining() then Some(n)
      else b
  }

  predicate IsSource(segment: Segment, offset: int)
  {
    !segment.Completed() && segment.offset < offset < segment.offset + segment.length
  }

  /** The first of the incomplete segments around `offset` with the least offset. */
  function FindSource(segments: seq<Segment>, offset: int): (b: Option<nat>)
    ensures b.Some? ==> b.value < |segments| && IsSource(segments[b.value], offset)
    ensures b.Some? ==>
      forall i :: 0 <= i < |segments| && IsSource(segments[i], offset) ==>
        segments[b.value].offset < segments[i].offset || (segments[b.value].offset == segments[i].offset && b.value <= i)
    ensures b.None? ==> forall i :: 0 <= i < |segments| ==> !IsSource(segments[i], offset)
  {
    if segments == [] then None
    else
      var n := |segments| - 1;
      var b := FindSource(segments[..n], offset);
      if !IsSource(segments[n], offset) then b
      else if b.None? || segments[n].offset < segments[b.value].offset then Some(n)
      else b
  }

  /** Takes `k` bytes off the end of segment `b` and makes them a segment of their own. */
  function Cut(segments: seq<Segment>, b: nat, k: int): seq<Segment>
    requires b < |segments|
  {
    var seg := segments[b];
    segments[b := seg.(length := seg.length - k)] + [Segment(seg.offset + seg.length - k, k, 0, Unstarted)]
  }

  /** `CreateSegmentAtOffsetUnsafe`: which segment to cut, and how much to take off it. */
  function CutForOffset(s: State, offset: int): Option<(nat, int)>
  {
    if offset <= 0 || offset >= s.Total() then None
    else if exists i :: 0 <= i < |s.segments| && !s.segments[i].Completed() && s.segments[i].offset == offset then None
    else
      var b := FindSource(s.segments, offset);
      if b.None? then None
      else
        var seg := s.segments[b.value];
        var newLength := seg.offset + seg.length - offset;
        if offset <= seg.offset + seg.downloaded || newLength <= 0 then None else Some((b.value, newLength))
  }

  /** Division by two that rounds toward zero. */
  function Half(n: int): int { if n >= 0 then n / 2 else -((-n) / 2) }

  function Updated(s: State, i: nat, segment: Segment): State
    requires i < |s.segments|
  {
    s.(segments := s.segments[i := segment])
  }

  // ---------- the steps ----------

  function PlanStep(c: Config, s: State, i: nat): Option<State>
  {
    if i >= |s.segments| || !s.segments[i].phase.Idle? then None
    else
      var seg := s.segments[i];
      if s.cancelled || seg.Completed() then Some(Updated(s, i, seg.(phase := Exited)))
      else
        var toRead := if c.bufferSize < seg.Remaining() then c.bufferSize else seg.Remaining();
        Some(Updated(s, i, seg.(phase := Reading(toRead))))
  }

  function StoreStep(s: State, i: nat, n: nat): Option<State>
  {
    if i >= |s.segments| || !s.segments[i].phase.Reading? || n > s.segments[i].phase.toRead then None
    else
      var seg := s.segments[i];
      var at := seg.offset + seg.downloaded;
      if !(0 <= at && at + n <= |s.source| && |s.buffer| == |s.source|) then None
      else
        Some(Updated(s, i, seg.(downloaded := seg.downloaded + n, phase := Idle))
             .(buffer := Overwrite(s.buffer, at, s.source[at..at + n])))
  }

  function RetryStep(s: State, i: nat): Option<State>
  {
    if i >= |s.segments| || !s.segments[i].phase.Reading? then None
    else Some(Updated(s, i, s.segments[i].(phase := Idle)))
  }

  function CheckStep(s: State): Option<State>
  {
    if !s.monitor.Watching? then None
    else Some(s.(monitor := if s.cancelled || TotalProgress(s) >= s.Total() then Stopped else Entering))
  }

  function PickStep(c: Config, s: State): Option<State>
  {
    if !s.monitor.Entering? then None
    else
      var active := Active(s.segments);
      var asked := s.priority.Some? && active < c.concurrency + 1;
      var cut := if asked then CutForOffset(s, s.priority.value) else None;
      var s1 := if asked then s.(priority := None) else s;
      if cut.Some? then
        Some(s1.(segments := Cut(s.segments, cut.value.0, cut.value.1), monitor := Launching(|s.segments|)))
      else if active < c.concurrency && Best(s.segments).Some?
              && s.segments[Best(s.segments).value].Remaining() >= MIN_SPLIT then
        Some(s1.(monitor := Picked(Best(s.segments).value)))
      else Some(s1.(monitor := Watching))
  }

  function SizeStep(s: State): Option<State>
  {
    if !s.monitor.Picked? || s.monitor.seg >= |s.segments| then None
    else Some(s.(monitor := Sized(s.monitor.seg, Half(s.segments[s.monitor.seg].Remaining()))))
  }

  function SplitStep(s: State): Option<State>
  {
    if !s.monitor.Sized? || s.monitor.seg >= |s.segments| then None
    else Some(s.(segments := Cut(s.segments, s.monitor.seg, s.monitor.split), monitor := Launching(|s.segments|)))
  }

  function LaunchStep(s: State): Option<State>
  {
    if !s.monitor.Launching? || s.monitor.seg >= |s.segments| then None
    else Some(Updated(s, s.monitor.seg, s.segments[s.monitor.seg].(phase := Idle)).(monitor := Launched(s.monitor.seg)))
  }

  function RegisterStep(s: State): Option<State>
  {
    if !s.monitor.Launched? then None else Some(s.(tasks := s.tasks + {s.monitor.seg}, monitor := Watching))
  }

  /** Any offset can be asked for at any time: a reader may be anywhere, and asks for the place up to which it
      saw bytes to be available at an earlier look. */
  function RequestStep(s: State, offset: int): Option<State>
  {
    if offset <= 0 || offset >= s.Total() then Some(s)
    else if s.priority.None? || offset < s.priority.value then Some(s.(priority := Some(offset)))
    else Some(s)
  }

  /** The state after a step, if the step is possible. */
  function Next(c: Config, s: State, step: Step): Option<State>
  {
    match step
    case Plan(i) => PlanStep(c, s, i)
    case Store(i, n) => StoreStep(s, i, n)
    case Retry(i) => RetryStep(s, i)
    case Check => CheckStep(s)
    case Pick => PickStep(c, s)
    case Size => SizeStep(s)
    case Split => SplitStep(s)
    case Launch => LaunchStep(s)
    case Register => RegisterStep(s)
    case Request(offset) => RequestStep(s, offset)
    case Cancel => Some(s.(cancelled := true))
  }

  function Run(c: Config, s: State, steps: seq<Step>): Option<State>
    decreases |steps|
  {
    if steps == [] then Some(s)
    else
      var next := Next(c, s, steps[0]);
      if next.None? then None else Run(c, next.value, steps[1..])
  }

  // ---------- the invariant ----------

  /** The monitor cannot be overtaken by a read in flight, or never splits of its own accord. */
  predicate Sound(c: Config) { c.bufferSize <= MIN_SPLIT + 1 || c.concurrency <= 1 }

  /** The local file agrees with the remote one at `x`. */
  predicate CorrectAt(s: State, x: int)
  {
    0 <= x < |s.buffer| && x < |s.source| && s.buffer[x] == s.source[x]
  }

  /** A segment lies within the file, and everything downloaded for it is correct, even behind its end. */
  ghost predicate SegmentOk(c: Config, s: State, seg: Segment)
  {
    && 0 <= seg.offset && seg.offset + seg.length <= s.Total()
    && 0 <= seg.downloaded && seg.offset + seg.downloaded <= s.Total()
    && (forall x :: seg.offset <= x < seg.offset + seg.downloaded ==> CorrectAt(s, x))
    && (seg.phase.Reading? ==> seg.phase.toRead <= c.bufferSize && seg.offset + seg.downloaded + seg.phase.toRead <= s.Total())
    && (seg.phase.Exited? ==> seg.Completed() || s.cancelled)
  }

  predicate Apart(a: Segment, b: Segment)
  {
    a.length == 0 || b.length == 0 || a.offset + a.length <= b.offset || b.offset + b.length <= a.offset
  }

  predicate Covered(segments: seq<Segment>, x: int)
  {
    exists i :: 0 <= i < |segments| && segments[i].Covers(x)
  }

  /** Every byte of the file is in a segment, and the lengths add up to it. */
  ghost predicate Spans(segments: seq<Segment>, total: nat)
  {
    (forall x :: 0 <= x < total ==> Covered(segments, x)) && SumLengths(segments) == total
  }

  /** The segments divide the file: no byte is in two of them, every byte is in one. */
  ghost predicate Tiles(segments: seq<Segment>, total: nat)
  {
    (forall i, j :: 0 <= i < j < |segments| ==> Apart(segments[i], segments[j])) && Spans(segments, total)
  }

  /** A task is in the task list, unless the monitor is just about to put it there. */
  predicate Tracked(s: State)
  {
    && (forall i :: i in s.tasks ==> i < |s.segments|)
    && (forall i :: 0 <= i < |s.segments| && i !in s.tasks ==> s.monitor == Launching(i) || s.monitor == Launched(i))
    && (forall i :: 0 <= i < |s.segments| && s.segments[i].phase.Unstarted? ==> s.monitor == Launching(i))
    && (s.monitor.Launching? ==> s.monitor.seg < |s.segments| && s.segments[s.monitor.seg].phase.Unstarted?)
    && (s.monitor.Launched? ==> s.monitor.seg < |s.segments|)
  }

  /** What the monitor has chosen cannot leave the file, even when it has been overtaken. */
  predicate MonitorFits(s: State)
  {
    match s.monitor
    case Picked(b) => b < |s.segments| && 0 <= s.segments[b].length
    case Sized(b, split) =>
      && b < |s.segments| && split <= s.segments[b].length
      && (split < 0 ==> s.segments[b].length - split <= s.segments[b].downloaded)
    case _ => true
  }

  /** What holds in every configuration. */
  ghost predicate Core(c: Config, s: State)
  {
    && |s.buffer| == |s.source|
    && (forall i :: 0 <= i < |s.segments| ==> SegmentOk(c, s, s.segments[i]))
    && Spans(s.segments, s.Total())
    && Tracked(s)
    && MonitorFits(s)
  }

  /** What the monitor has chosen is still possible when it acts on it. */
  predicate MonitorOk(s: State)
  {
    match s.monitor
    case Picked(b) =>
      && b < |s.segments| && s.segments[b].downloaded <= s.segments[b].length + 1
      && (s.segments[b].phase.Reading? ==> s.segments[b].downloaded + s.segments[b].phase.toRead <= s.segments[b].length + 1)
    case Sized(b, split) => b < |s.segments| && 0 <= split <= s.segments[b].length
    case _ => true
  }

  /** What holds besides in a sound configuration: no two segments overlap. */
  predicate Separate(s: State)
  {
    && (forall i :: 0 <= i < |s.segments| ==> 0 <= s.segments[i].length)
    && (forall i, j :: 0 <= i < j < |s.segments| ==> Apart(s.segments[i], s.segments[j]))
    && MonitorOk(s)
  }

  ghost predicate Inv(c: Config, s: State) { Core(c, s) && Separate(s) }
}
