/** What every run of the segmented download keeps. */
module SegmentsSafety {
  import opened Bytes
  import opened Segments

  // ---------- cutting a segment ----------

  lemma {:induction false} SumLengthsUpdate(segments: seq<Segment>, i: nat, segment: Segment)
    requires i < |segments|
    ensures SumLengths(segments[i := segment]) == SumLengths(segments) - segments[i].length + segment.length
  {
    var after := segments[i := segment];
    if i == 0 {
      assert after[1..] == segments[1..];
    } else {
      SumLengthsUpdate(segments[1..], i - 1, segment);
      assert after[1..] == segments[1..][i - 1 := segment];
    }
  }

  lemma {:induction false} SumLengthsAppend(segments: seq<Segment>, segment: Segment)
    ensures SumLengths(segments + [segment]) == SumLengths(segments) + segment.length
  {
    if segments == [] {
      assert segments + [segment] == [segment];
      assert [segment][1..] == [];
    } else {
      SumLengthsAppend(segments[1..], segment);
      assert (segments + [segment])[1..] == segments[1..] + [segment];
    }
  }

  /** Whatever is cut off a segment, even a negative length, nothing is left uncovered. */
  lemma CutSpans(segments: seq<Segment>, total: nat, b: nat, k: int)
    requires Spans(segments, total) && b < |segments|
    ensures Spans(Cut(segments, b, k), total)
  {
    var seg := segments[b];
    var cut := Cut(segments, b, k);
    var short, tail := seg.(length := seg.length - k), Segment(seg.offset + seg.length - k, k, 0, Unstarted);
    SumLengthsUpdate(segments, b, short);
    SumLengthsAppend(segments[b := short], tail);
    forall x | 0 <= x < total
      ensures Covered(cut, x)
    {
      assert Covered(segments, x);
      var i :| 0 <= i < |segments| && segments[i].Covers(x);
      if i != b {
        assert cut[i].Covers(x);
      } else if x < seg.offset + seg.length - k {
        assert cut[b].Covers(x);
      } else {
        assert cut[|segments|].Covers(x);
      }
    }
  }

  /** Cutting a segment in two keeps the segments apart. */
  lemma CutApart(segments: seq<Segment>, b: nat, k: int)
    requires b < |segments| && 0 <= k <= segments[b].length
    requires forall i, j :: 0 <= i < j < |segments| ==> Apart(segments[i], segments[j])
    ensures var cut := Cut(segments, b, k); forall i, j :: 0 <= i < j < |cut| ==> Apart(cut[i], cut[j])
  {
    var cut := Cut(segments, b, k);
    forall i, j | 0 <= i < j < |cut|
      ensures Apart(cut[i], cut[j])
    {
      if j < |segments| {
        assert Apart(segments[i], segments[j]);
      } else if i < b {
        assert Apart(segments[i], segments[b]);
      } else if i > b {
        assert Apart(segments[b], segments[i]);
      }
    }
  }

  /** Cutting a segment in two leaves the file divided. */
  lemma CutTiles(segments: seq<Segment>, total: nat, b: nat, k: int)
    requires Tiles(segments, total) && b < |segments| && 0 <= k <= segments[b].length
    ensures Tiles(Cut(segments, b, k), total)
  {
    hide Spans, Cut, Apart;
    CutSpans(segments, total, b, k);
    CutApart(segments, b, k);
  }

  /** Changing what is not the extent of a segment leaves nothing uncovered. */
  lemma UpdateSpans(segments: seq<Segment>, total: nat, i: nat, segment: Segment)
    requires Spans(segments, total) && i < |segments|
    requires segment.offset == segments[i].offset && segment.length == segments[i].length
    ensures Spans(segments[i := segment], total)
  {
    var after := segments[i := segment];
    SumLengthsUpdate(segments, i, segment);
    forall x | 0 <= x < total
      ensures Covered(after, x)
    {
      assert Covered(segments, x);
      var k :| 0 <= k < |segments| && segments[k].Covers(x);
      assert after[k].Covers(x);
    }
  }

  // ---------- every step keeps the core of the invariant, in every configuration ----------

  lemma InitInv(c: Config, source: seq<byte>)
    ensures Inv(c, Init(source))
  {
    var s := Init(source);
    assert s.segments[1..] == [];
    assert forall x :: 0 <= x < s.Total() ==> s.segments[0].Covers(x);
  }

  /** Writing downloaded bytes makes them correct and spoils nothing. */
  lemma StoreCorrect(s: State, i: nat, n: nat)
    requires StoreStep(s, i, n).Some?
    ensures var t := StoreStep(s, i, n).value;
            var at := s.segments[i].offset + s.segments[i].downloaded;
            && |t.buffer| == |s.buffer| && t.source == s.source
            && (forall x :: CorrectAt(s, x) ==> CorrectAt(t, x))
            && (forall x :: at <= x < at + n ==> CorrectAt(t, x))
  {
  }

  lemma PlanKeeps(c: Config, s: State, i: nat)
    requires Core(c, s) && PlanStep(c, s, i).Some?
    ensures Core(c, PlanStep(c, s, i).value)
  {
    hide Spans;
    var t := PlanStep(c, s, i).value;
    UpdateSpans(s.segments, s.Total(), i, t.segments[i]);
    SameBuffer(c, s, t);
  }

  lemma RetryKeeps(c: Config, s: State, i: nat)
    requires Core(c, s) && RetryStep(s, i).Some?
    ensures Core(c, RetryStep(s, i).value)
  {
    hide Spans;
    var t := RetryStep(s, i).value;
    UpdateSpans(s.segments, s.Total(), i, t.segments[i]);
    SameBuffer(c, s, t);
  }

  /** Segments are judged by the two files and the cancellation only. */
  lemma SameBuffer(c: Config, s: State, t: State)
    requires t.source == s.source && t.buffer == s.buffer && (s.cancelled ==> t.cancelled)
    ensures forall seg :: SegmentOk(c, s, seg) ==> SegmentOk(c, t, seg)
  {
    assert forall x :: CorrectAt(s, x) <==> CorrectAt(t, x);
  }

  lemma StoreKeeps(c: Config, s: State, i: nat, n: nat)
    requires Core(c, s) && StoreStep(s, i, n).Some?
    ensures Core(c, StoreStep(s, i, n).value)
  {
    hide Spans, CorrectAt, Overwrite;
    var t := StoreStep(s, i, n).value;
    UpdateSpans(s.segments, s.Total(), i, t.segments[i]);
    StoreCorrect(s, i, n);
    assert SegmentOk(c, s, s.segments[i]);
    forall j | 0 <= j < |t.segments|
      ensures SegmentOk(c, t, t.segments[j])
    {
      if j != i {
        assert SegmentOk(c, s, s.segments[j]);
      }
    }
  }

  /** A cut may take any length that leaves both parts within the file: either a piece of the segment, or a
      negative one that makes it end no later than what was downloaded for it. */
  lemma CutKeeps(c: Config, s: State, b: nat, k: int)
    requires Core(c, s) && b < |s.segments| && !s.monitor.Launching? && !s.monitor.Launched?
    requires k <= s.segments[b].length && (k < 0 ==> s.segments[b].length - k <= s.segments[b].downloaded)
    ensures Core(c, s.(segments := Cut(s.segments, b, k), monitor := Launching(|s.segments|)))
    ensures Core(c, s.(segments := Cut(s.segments, b, k), monitor := Launching(|s.segments|), priority := None))
  {
    hide Spans;
    var t := s.(segments := Cut(s.segments, b, k), monitor := Launching(|s.segments|));
    CutSpans(s.segments, s.Total(), b, k);
    SameBuffer(c, s, t);
    assert SegmentOk(c, s, s.segments[b]);
    forall j | 0 <= j < |t.segments|
      ensures SegmentOk(c, t, t.segments[j])
    {
      if j < |s.segments| {
        assert SegmentOk(c, s, s.segments[j]);
      }
    }
    var u := t.(priority := None);
    SameBuffer(c, t, u);
  }

  lemma PickKeeps(c: Config, s: State)
    requires Core(c, s) && PickStep(c, s).Some?
    ensures Core(c, PickStep(c, s).value)
  {
    hide Spans, SegmentOk, Best, FindSource, Cut;
    var t := PickStep(c, s).value;
    if t.monitor.Launching? {
      var cut := CutForOffset(s, s.priority.value);
      SegmentExtent(c, s, cut.value.0);
      CutKeeps(c, s, cut.value.0, cut.value.1);
    } else {
      SameBuffer(c, s, t);
      if t.monitor.Picked? {
        SegmentExtent(c, s, t.monitor.seg);
      }
    }
  }

  lemma SegmentExtent(c: Config, s: State, i: nat)
    requires Core(c, s) && i < |s.segments|
    ensures var seg := s.segments[i];
            && 0 <= seg.offset && 0 <= seg.downloaded && seg.offset + seg.length <= s.Total()
            && seg.offset + seg.downloaded <= s.Total()
            && (seg.phase.Reading? ==> seg.phase.toRead <= c.bufferSize)
            && (seg.phase.Exited? ==> seg.Completed() || s.cancelled)
  {
  }

  lemma MonitorKeeps(c: Config, s: State, step: Step)
    requires Core(c, s) && Next(c, s, step).Some?
    requires step.Check? || step.Size? || step.Register? || step.Request? || step.Cancel?
    ensures Core(c, Next(c, s, step).value)
  {
    hide Spans, SegmentOk;
    var t := Next(c, s, step).value;
    SameBuffer(c, s, t);
    if step.Size? {
      SegmentExtent(c, s, s.monitor.seg);
    }
  }

  lemma SplitKeeps(c: Config, s: State)
    requires Core(c, s) && SplitStep(s).Some?
    ensures Core(c, SplitStep(s).value)
  {
    hide Spans, SegmentOk, Cut;
    CutKeeps(c, s, s.monitor.seg, s.monitor.split);
  }

  lemma LaunchKeeps(c: Config, s: State)
    requires Core(c, s) && LaunchStep(s).Some?
    ensures Core(c, LaunchStep(s).value)
  {
    hide Spans;
    var t := LaunchStep(s).value;
    UpdateSpans(s.segments, s.Total(), s.monitor.seg, t.segments[s.monitor.seg]);
    SameBuffer(c, s, t);
  }

  /** Every step keeps the core. */
  lemma NextCore(c: Config, s: State, step: Step)
    requires Core(c, s) && Next(c, s, step).Some?
    ensures Core(c, Next(c, s, step).value)
  {
    hide Core, PlanStep, StoreStep, RetryStep, PickStep, SplitStep, LaunchStep;
    match step {
      case Plan(i) => PlanKeeps(c, s, i);
      case Store(i, n) => StoreKeeps(c, s, i, n);
      case Retry(i) => RetryKeeps(c, s, i);
      case Pick => PickKeeps(c, s);
      case Split => SplitKeeps(c, s);
      case Launch => LaunchKeeps(c, s);
      case _ => MonitorKeeps(c, s, step);
    }
  }

  /** Over any run, in any configuration, everything downloaded is correct and no byte of the file is
      without a segment, even where segments overlap. */
  lemma {:induction false} RunCore(c: Config, s: State, steps: seq<Step>)
    requires Core(c, s) && Run(c, s, steps).Some?
    ensures Core(c, Run(c, s, steps).value)
    decreases |steps|
  {
    hide Core, Next;
    if steps != [] {
      NextCore(c, s, steps[0]);
      RunCore(c, Next(c, s, steps[0]).value, steps[1..]);
    }
  }

  /** A task that has read something can always write it: its bytes lie within the file. */
  lemma StorePossible(c: Config, s: State, i: nat, n: nat)
    requires Core(c, s) && i < |s.segments| && s.segments[i].phase.Reading? && n <= s.segments[i].phase.toRead
    ensures StoreStep(s, i, n).Some?
  {
  }

  // ---------- in a sound configuration, segments never overlap ----------

  /** An incomplete segment counts as active. */
  lemma {:induction false} IncompleteIsActive(segments: seq<Segment>, i: nat)
    requires i < |segments| && !segments[i].Completed()
    ensures Active(segments) >= 1
  {
    if i > 0 {
      IncompleteIsActive(segments[1..], i - 1);
    }
  }

  lemma CutSeparate(s: State, b: nat, k: int)
    requires Separate(s) && b < |s.segments| && 0 <= k <= s.segments[b].length
    ensures Separate(s.(segments := Cut(s.segments, b, k), monitor := Launching(|s.segments|)))
    ensures Separate(s.(segments := Cut(s.segments, b, k), monitor := Launching(|s.segments|), priority := None))
  {
    hide Apart;
    CutApart(s.segments, b, k);
  }

  lemma PickSeparate(c: Config, s: State)
    requires Sound(c) && Inv(c, s) && PickStep(c, s).Some?
    ensures Separate(PickStep(c, s).value)
  {
    hide Spans, SegmentOk, Best, FindSource, Cut, Apart;
    var t := PickStep(c, s).value;
    if t.monitor.Launching? {
      var cut := CutForOffset(s, s.priority.value);
      SegmentExtent(c, s, cut.value.0);
      CutSeparate(s, cut.value.0, cut.value.1);
    } else if t.monitor.Picked? {
      IncompleteIsActive(s.segments, t.monitor.seg);
      SegmentExtent(c, s, t.monitor.seg);
    }
  }

  /** Apartness is a matter of the segments' extents. */
  lemma UpdateSeparate(s: State, i: nat, segment: Segment, t: State)
    requires Separate(s) && i < |s.segments| && t.segments == s.segments[i := segment] && MonitorOk(t)
    requires segment.offset == s.segments[i].offset && segment.length == s.segments[i].length
    ensures Separate(t)
  {
    hide MonitorOk;
    forall k, l | 0 <= k < l < |t.segments|
      ensures Apart(t.segments[k], t.segments[l])
    {
      assert Apart(s.segments[k], s.segments[l]);
    }
  }

  lemma TaskSeparate(c: Config, s: State, step: Step)
    requires Separate(s) && Next(c, s, step).Some? && (step.Plan? || step.Store? || step.Retry?)
    ensures Separate(Next(c, s, step).value)
  {
    hide Separate, Overwrite;
    var t := Next(c, s, step).value;
    MonitorIsOk(s);
    UpdateSeparate(s, step.i, t.segments[step.i], t);
  }

  lemma MonitorIsOk(s: State)
    requires Separate(s)
    ensures MonitorOk(s)
  {
  }

  lemma MonitorSeparate(c: Config, s: State, step: Step)
    requires Inv(c, s) && Next(c, s, step).Some?
    requires step.Check? || step.Size? || step.Register? || step.Request? || step.Cancel?
    ensures Separate(Next(c, s, step).value)
  {
    hide Core, Apart, TotalProgress;
    if step.Size? {
      SegmentExtent(c, s, s.monitor.seg);
    }
  }

  lemma NextSeparate(c: Config, s: State, step: Step)
    requires Sound(c) && Inv(c, s) && Next(c, s, step).Some?
    ensures Separate(Next(c, s, step).value)
  {
    hide Core, PlanStep, StoreStep, RetryStep, PickStep, Apart, Cut;
    match step {
      case Plan(i) => TaskSeparate(c, s, step);
      case Store(i, n) => TaskSeparate(c, s, step);
      case Retry(i) => TaskSeparate(c, s, step);
      case Launch => UpdateSeparate(s, s.monitor.seg, LaunchStep(s).value.segments[s.monitor.seg], LaunchStep(s).value);
      case Pick => PickSeparate(c, s);
      case Split => CutSeparate(s, s.monitor.seg, s.monitor.split);
      case _ => MonitorSeparate(c, s, step);
    }
  }

  /** Every step keeps the invariant. */
  lemma NextKeeps(c: Config, s: State, step: Step)
    requires Sound(c) && Inv(c, s) && Next(c, s, step).Some?
    ensures Inv(c, Next(c, s, step).value)
  {
    hide Core, Separate, Next;
    NextCore(c, s, step);
    NextSeparate(c, s, step);
  }

  lemma InvTiles(c: Config, s: State)
    requires Inv(c, s)
    ensures Tiles(s.segments, s.Total())
  {
  }

  /** Over any run from the start, the segments divide the file and everything downloaded is correct. */
  lemma {:induction false} RunKeeps(c: Config, s: State, steps: seq<Step>)
    requires Sound(c) && Inv(c, s) && Run(c, s, steps).Some?
    ensures Inv(c, Run(c, s, steps).value)
    decreases |steps|
  {
    hide Inv, Next;
    if steps != [] {
      NextKeeps(c, s, steps[0]);
      RunKeeps(c, Next(c, s, steps[0]).value, steps[1..]);
    }
  }

  // ---------- how many connections ----------

  function Count(segment: Segment): nat { if segment.Completed() then 0 else 1 }

  lemma {:induction false} ActiveUpdate(segments: seq<Segment>, i: nat, segment: Segment)
    requires i < |segments|
    ensures Active(segments[i := segment]) == Active(segments) - Count(segments[i]) + Count(segment)
  {
    var after := segments[i := segment];
    if i == 0 {
      assert after[1..] == segments[1..];
    } else {
      ActiveUpdate(segments[1..], i - 1, segment);
      assert after[1..] == segments[1..][i - 1 := segment];
    }
  }

  lemma {:induction false} ActiveAppend(segments: seq<Segment>, segment: Segment)
    ensures Active(segments + [segment]) == Active(segments) + Count(segment)
  {
    if segments == [] {
      assert (segments + [segment])[1..] == [];
    } else {
      ActiveAppend(segments[1..], segment);
      assert (segments + [segment])[1..] == segments[1..] + [segment];
    }
  }

  /** What the monitor counts as connections: the incomplete segments. */
  lemma {:induction false} ActiveIs(segments: seq<Segment>)
    ensures Active(segments) == |set i: nat | i < |segments| && segments[i].downloaded < segments[i].length|
    decreases |segments|
  {
    var all := set i: nat | i < |segments| && segments[i].downloaded < segments[i].length;
    if segments == [] {
      assert all == {};
    } else {
      var n := |segments| - 1;
      var init := segments[..n];
      ActiveIs(init);
      assert init + [segments[n]] == segments;
      ActiveAppend(init, segments[n]);
      var some := set i: nat | i < |init| && init[i].downloaded < init[i].length;
      assert all == if segments[n].Completed() then some else some + {n};
    }
  }

  /** At most one more segment is open than the configured concurrency, and while the monitor is about to
      split there is room for the new one. */
  predicate Bounded(c: Config, s: State)
  {
    && Active(s.segments) <= (if c.concurrency < 0 then 1 else c.concurrency + 1)
    && (s.monitor.Picked? || s.monitor.Sized? ==> Active(s.segments) < c.concurrency)
  }

  lemma CutBounded(segments: seq<Segment>, b: nat, k: int)
    requires b < |segments|
    ensures Active(Cut(segments, b, k)) <= Active(segments) + 1
  {
    hide Active;
    var seg := segments[b];
    var short := seg.(length := seg.length - k);
    ActiveUpdate(segments, b, short);
    ActiveAppend(segments[b := short], Segment(seg.offset + seg.length - k, k, 0, Unstarted));
  }

  lemma NextBounded(c: Config, s: State, step: Step)
    requires Bounded(c, s) && Next(c, s, step).Some?
    ensures Bounded(c, Next(c, s, step).value)
  {
    hide Cut, Best, FindSource, Overwrite, SumDownloaded, Active;
    var t := Next(c, s, step).value;
    match step {
      case Plan(i) => ActiveUpdate(s.segments, i, t.segments[i]);
      case Store(i, n) => ActiveUpdate(s.segments, i, t.segments[i]);
      case Retry(i) => ActiveUpdate(s.segments, i, t.segments[i]);
      case Pick =>
        if t.monitor.Launching? {
          var cut := CutForOffset(s, s.priority.value);
          CutBounded(s.segments, cut.value.0, cut.value.1);
        }
      case Split => CutBounded(s.segments, s.monitor.seg, s.monitor.split);
      case Launch => ActiveUpdate(s.segments, s.monitor.seg, t.segments[s.monitor.seg]);
      case _ =>
    }
  }

  lemma {:induction false} RunBounded(c: Config, s: State, steps: seq<Step>)
    requires Bounded(c, s) && Run(c, s, steps).Some?
    ensures Bounded(c, Run(c, s, steps).value)
    decreases |steps|
  {
    hide Next, Bounded;
    if steps != [] {
      NextBounded(c, s, steps[0]);
      RunBounded(c, Next(c, s, steps[0]).value, steps[1..]);
    }
  }

  lemma InitBounded(c: Config, source: seq<byte>)
    ensures Bounded(c, Init(source))
  {
  }

  /** Over any run, the incomplete segments, which is what the monitor counts as connections, number at
      most one more than the configured concurrency. The task of a segment that was cut to less than it
      had already downloaded is not counted, although it holds its connection until it looks again. */
  lemma ConnectionsBounded(c: Config, source: seq<byte>, steps: seq<Step>)
    requires Run(c, Init(source), steps).Some?
    ensures Active(Run(c, Init(source), steps).value.segments) <= (if c.concurrency < 0 then 1 else c.concurrency + 1)
  {
    hide Next, Run, Init;
    InitBounded(c, source);
    RunBounded(c, Init(source), steps);
  }

  // ---------- what a new segment is ----------

  /** Of the incomplete segments around `o`, `b` is the first one with the least offset. */
  predicate FirstAround(segments: seq<Segment>, o: int, b: nat)
  {
    && b < |segments| && segments[b].downloaded < segments[b].length
    && segments[b].offset < o < segments[b].offset + segments[b].length
    && forall i :: 0 <= i < |segments| ==>
         segments[i].downloaded < segments[i].length && segments[i].offset < o < segments[i].offset + segments[i].length ==>
         segments[b].offset < segments[i].offset || (segments[b].offset == segments[i].offset && b <= i)
  }

  /** A segment can be opened at `o`, within segment `b`: `o` lies inside the file, no incomplete segment
      starts there, and `b` has not been downloaded that far. */
  predicate Opens(s: State, o: int, b: nat)
  {
    && 0 < o < |s.source|
    && (forall i :: 0 <= i < |s.segments| && s.segments[i].downloaded < s.segments[i].length ==> s.segments[i].offset != o)
    && FirstAround(s.segments, o, b) && s.segments[b].offset + s.segments[b].downloaded < o
  }

  /** The state after a segment has been opened at `o`: it takes over the rest of segment `b`. */
  predicate OpenedAt(s: State, o: int, b: nat, t: State)
    requires b < |s.segments|
  {
    && |t.segments| == |s.segments| + 1
    && t.segments[|s.segments|] == Segment(o, s.segments[b].offset + s.segments[b].length - o, 0, Unstarted)
    && t.segments[b] == s.segments[b].(length := o - s.segments[b].offset)
    && (forall i :: 0 <= i < |s.segments| && i != b ==> t.segments[i] == s.segments[i])
    && t == s.(segments := t.segments, priority := None, monitor := Launching(|s.segments|))
  }

  lemma CutForOffsetIs(s: State, o: int)
    ensures CutForOffset(s, o).Some? ==> Opens(s, o, CutForOffset(s, o).value.0)
    ensures forall b: nat :: Opens(s, o, b) ==>
      CutForOffset(s, o) == Some((b, s.segments[b].offset + s.segments[b].length - o))
  {
    forall b: nat | Opens(s, o, b)
      ensures CutForOffset(s, o) == Some((b, s.segments[b].offset + s.segments[b].length - o))
    {
      assert IsSource(s.segments[b], o);
    }
  }

  /** Exactly when a priority request opens a segment, and what it then is. It is dropped in any case. */
  lemma PriorityIff(c: Config, s: State, o: int)
    requires s.monitor.Entering? && s.priority == Some(o) && Active(s.segments) <= c.concurrency
    ensures PickStep(c, s).Some?
    ensures var t := PickStep(c, s).value;
            && t.priority == None
            && (t.segments != s.segments <==> exists b: nat :: Opens(s, o, b))
            && (forall b: nat :: Opens(s, o, b) ==> b < |s.segments| && OpenedAt(s, o, b, t))
  {
    hide Active, Best, CutForOffset, Opens;
    CutForOffsetIs(s, o);
    var t := PickStep(c, s).value;
    if CutForOffset(s, o).Some? {
      var b := CutForOffset(s, o).value.0;
      assert Opens(s, o, b);
      OpensWithin(s, o, b);
      assert |t.segments| == |s.segments| + 1;
    }
    forall b: nat | Opens(s, o, b)
      ensures b < |s.segments| && OpenedAt(s, o, b, t)
    {
      OpensWithin(s, o, b);
    }
  }

  lemma OpensWithin(s: State, o: int, b: nat)
    requires Opens(s, o, b)
    ensures b < |s.segments|
  {
  }

  /** Exactly when the monitor chooses a segment to split, and which: of the incomplete ones, the first with
      the most left, when that is at least 2 MiB and fewer segments are incomplete than there may be. */
  lemma SplitIff(c: Config, s: State, b: nat)
    requires s.monitor.Entering? && PickStep(c, s).Some? && PickStep(c, s).value.segments == s.segments
    ensures var t := PickStep(c, s).value;
            && t == s.(monitor := t.monitor, priority := t.priority) && (t.monitor.Picked? || t.monitor == Watching)
            && (t.monitor == Picked(b) <==>
                  && Active(s.segments) < c.concurrency && b < |s.segments|
                  && s.segments[b].downloaded < s.segments[b].length
                  && s.segments[b].length - s.segments[b].downloaded >= 2_097_152
                  && (forall i :: 0 <= i < |s.segments| && s.segments[i].downloaded < s.segments[i].length ==>
                        || s.segments[i].length - s.segments[i].downloaded < s.segments[b].length - s.segments[b].downloaded
                        || (s.segments[i].length - s.segments[i].downloaded
                              == s.segments[b].length - s.segments[b].downloaded && b <= i)))
            && (t.priority == s.priority || (t.priority == None && Active(s.segments) <= c.concurrency))
  {
    hide Active, FindSource, Cut;
    PickGrows(c, s);
  }

  lemma PickGrows(c: Config, s: State)
    requires PickStep(c, s).Some?
    ensures var t := PickStep(c, s).value; t.monitor.Launching? ==> |t.segments| == |s.segments| + 1
  {
    hide Active, FindSource, Best;
  }

  /** A task that looks at its segment ends when that is complete or the download cancelled; otherwise it
      reads as much as its buffer and the segment allow. */
  lemma PlanEffect(c: Config, s: State, i: nat)
    ensures PlanStep(c, s, i).Some? <==> i < |s.segments| && s.segments[i].phase.Idle?
    ensures PlanStep(c, s, i).Some? ==>
      var t := PlanStep(c, s, i).value;
      && |t.segments| == |s.segments| && t == s.(segments := t.segments)
      && (forall j :: 0 <= j < |s.segments| && j != i ==> t.segments[j] == s.segments[j])
      && t.segments[i] == s.segments[i].(phase := t.segments[i].phase)
      && var left := s.segments[i].length - s.segments[i].downloaded;
         if s.cancelled || left <= 0 then t.segments[i].phase == Exited
         else
           && t.segments[i].phase.Reading?
           && var n := t.segments[i].phase.toRead; n <= c.bufferSize && n <= left && (n == c.bufferSize || n == left)
  {
  }

  /** A write touches nothing but its own bytes and its own segment. */
  lemma StoreEffect(s: State, i: nat, n: nat)
    requires StoreStep(s, i, n).Some?
    ensures i < |s.segments| && s.segments[i].phase.Reading? && n <= s.segments[i].phase.toRead
    ensures var t := StoreStep(s, i, n).value;
            var at := s.segments[i].offset + s.segments[i].downloaded;
            && |t.segments| == |s.segments| && |t.buffer| == |s.buffer|
            && t == s.(segments := t.segments, buffer := t.buffer)
            && (forall j :: 0 <= j < |s.segments| && j != i ==> t.segments[j] == s.segments[j])
            && t.segments[i] == s.segments[i].(downloaded := s.segments[i].downloaded + n, phase := Idle)
            && (forall x :: 0 <= x < |s.buffer| && !(at <= x < at + n) ==> t.buffer[x] == s.buffer[x])
  {
  }

  /** How much is going to be split off: half of what remains at that moment, rounded toward zero. */
  lemma SizeEffect(s: State)
    requires SizeStep(s).Some?
    ensures s.monitor.Picked? && s.monitor.seg < |s.segments|
    ensures var left, m := s.segments[s.monitor.seg].length - s.segments[s.monitor.seg].downloaded, SizeStep(s).value.monitor;
            && SizeStep(s).value == s.(monitor := m) && m.Sized? && m.seg == s.monitor.seg
            && (left >= 0 ==> 2 * m.split == left || 2 * m.split == left - 1)
            && (left < 0 ==> 2 * m.split == left || 2 * m.split == left + 1)
  {
  }

  /** The split itself, of whatever length: it is taken off the end, and becomes a segment right behind. */
  lemma SplitEffect(s: State)
    requires SplitStep(s).Some?
    ensures s.monitor.Sized? && s.monitor.seg < |s.segments|
    ensures var t, b, k, n := SplitStep(s).value, s.monitor.seg, s.monitor.split, |s.segments|;
            && |t.segments| == n + 1 && t == s.(segments := t.segments, monitor := Launching(n))
            && t.segments[b] == s.segments[b].(length := s.segments[b].length - k)
            && t.segments[n] == Segment(t.segments[b].offset + t.segments[b].length, k, 0, Unstarted)
            && forall i :: 0 <= i < n && i != b ==> t.segments[i] == s.segments[i]
  {
  }

  /** The new segment's task runs before it is in the task list. */
  lemma LaunchEffect(s: State)
    requires LaunchStep(s).Some? && RegisterStep(LaunchStep(s).value).Some?
    ensures var i, t, u := s.monitor.seg, LaunchStep(s).value, RegisterStep(LaunchStep(s).value).value;
            && i < |s.segments| && t.tasks == s.tasks && t.segments == s.segments[i := s.segments[i].(phase := Idle)]
            && u == t.(tasks := s.tasks + {i}, monitor := Watching)
  {
  }

  /** The monitor goes on exactly while the download is not cancelled and the progress below the size. */
  lemma CheckEffect(s: State)
    requires s.monitor.Watching?
    ensures CheckStep(s).Some?
    ensures CheckStep(s).value.monitor == Entering <==> !s.cancelled && TotalProgress(s) < |s.source|
    ensures CheckStep(s).value.monitor == Stopped <==> s.cancelled || TotalProgress(s) >= |s.source|
  {
  }

  /** Of several requests the one nearest to the start is kept; one outside the file is ignored. */
  lemma RequestEffect(s: State, o: int)
    ensures RequestStep(s, o).Some?
    ensures var t := RequestStep(s, o).value;
            && t == s.(priority := t.priority)
            && (o <= 0 || o >= |s.source| ==> t == s)
            && (0 < o < |s.source| ==>
                  && t.priority.Some? && t.priority.value <= o && (t.priority == Some(o) || t.priority == s.priority)
                  && (s.priority.Some? ==> t.priority.value <= s.priority.value))
  {
  }

  /** A priority request is answered with a segment that starts at the requested offset and runs to the
      end of the segment it was cut from; it is dropped in any case. */
  lemma PriorityServed(c: Config, s: State)
    requires PickStep(c, s).Some? && s.priority.Some? && Active(s.segments) < c.concurrency + 1
    ensures var t := PickStep(c, s).value;
            && t.priority.None?
            && (|t.segments| > |s.segments| ==>
                 && |t.segments| == |s.segments| + 1 && t.monitor == Launching(|s.segments|)
                 && var added := t.segments[|s.segments|];
                    && added.offset == s.priority.value && added.downloaded == 0 && added.length > 0
                    && exists b :: 0 <= b < |s.segments| && IsSource(s.segments[b], s.priority.value)
                         && added.offset + added.length == s.segments[b].offset + s.segments[b].length
                         && t.segments[b].offset + t.segments[b].length == added.offset
                         && !t.segments[b].Completed())
  {
    hide Best, FindSource;
  }

  /** Without interference a split gives the new segment the second half of what remains. */
  lemma SplitHalves(s: State, b: nat)
    requires s.monitor == Picked(b) && b < |s.segments| && !s.segments[b].Completed()
    ensures SizeStep(s).Some? && SplitStep(SizeStep(s).value).Some?
    ensures var t := SplitStep(SizeStep(s).value).value;
            var whole, first, second := s.segments[b], t.segments[b], t.segments[|s.segments|];
            && first.Remaining() + second.Remaining() == whole.Remaining()
            && 0 <= first.Remaining() - second.Remaining() <= 1
            && second.offset == first.offset + first.length
  {
  }
}
