/** How much a segmented download can read at most, in any configuration. */
module SegmentBounds {
  import opened Bytes
  import opened Segments
  import opened SegmentsSafety
  import opened SegmentFinish

  // ---------- no two segments start at the same place ----------

  /** The monitor is about to cut a piece off this segment. */
  predicate Chosen(s: State, j: nat)
  {
    s.monitor == Picked(j) || (s.monitor.Sized? && s.monitor.seg == j && s.monitor.split > 0)
  }

  /** A segment that can still be cut. */
  predicate Open(s: State, j: nat)
    requires j < |s.segments|
  {
    s.segments[j].length > 0 && (!s.segments[j].Completed() || Chosen(s, j))
  }

  predicate StartsIn(a: Segment, b: Segment) { b.offset <= a.offset < b.offset + b.length }

  /** Segments that are not empty start at different places. */
  predicate OffsetsDiffer(s: State)
  {
    forall i, j :: 0 <= i < |s.segments| && 0 <= j < |s.segments| && i != j ==>
      s.segments[i].length > 0 && s.segments[j].length > 0 ==> s.segments[i].offset != s.segments[j].offset
  }

  /** None of them starts in another one that can still be cut. */
  predicate NoneInside(s: State)
  {
    forall i, j :: 0 <= i < |s.segments| && 0 <= j < |s.segments| && i != j ==>
      s.segments[i].length > 0 && Open(s, j) ==> !StartsIn(s.segments[i], s.segments[j])
  }

  /** Nothing is downloaded for an empty segment. */
  predicate EmptyIdle(s: State)
  {
    forall i :: 0 <= i < |s.segments| && s.segments[i].length <= 0 ==>
      s.segments[i].downloaded == 0 && !s.segments[i].phase.Reading?
  }

  /** The monitor leaves something of the segment it cuts. */
  predicate LeavesSome(s: State)
  {
    && (s.monitor.Picked? ==> s.monitor.seg < |s.segments| && s.segments[s.monitor.seg].length > 0)
    && (s.monitor.Sized? ==>
          && s.monitor.seg < |s.segments| && s.segments[s.monitor.seg].length > 0
          && s.monitor.split < s.segments[s.monitor.seg].length)
  }

  /** Where segments start, even when a completed one has been made longer than it was. */
  predicate StartsApart(s: State) { OffsetsDiffer(s) && NoneInside(s) && EmptyIdle(s) && LeavesSome(s) }

  /** Cutting a piece off an open segment. */
  lemma CutStarts(s: State, b: nat, k: int, t: State)
    requires StartsApart(s) && b < |s.segments| && Open(s, b) && 0 < k < s.segments[b].length
    requires t.segments == Cut(s.segments, b, k) && t.monitor.Launching?
    ensures StartsApart(t)
  {
    var n := |s.segments|;
    var seg, added := s.segments[b], t.segments[n];
    assert forall i :: 0 <= i < n && i != b ==> t.segments[i] == s.segments[i];
    forall i | 0 <= i < n && i != b && s.segments[i].length > 0
      ensures !StartsIn(s.segments[i], seg)
    {
    }
    assert NoneInside(t) by {
      forall j | 0 <= j < n && j != b && Open(t, j)
        ensures !StartsIn(added, t.segments[j])
      {
        assert Open(s, j);
        assert !StartsIn(s.segments[j], seg) && !StartsIn(seg, s.segments[j]);
      }
      assert forall j :: 0 <= j < n && j != b && Open(t, j) ==> Open(s, j);
    }
    assert OffsetsDiffer(t) by {
      hide Open;
    }
  }

  /** A cut of nothing, or of a negative length off a completed segment, which stays completed. */
  lemma NoCutStarts(s: State, b: nat, k: int, t: State)
    requires StartsApart(s) && b < |s.segments| && s.segments[b].length > 0 && k <= 0
    requires k < 0 ==> s.segments[b].length - k <= s.segments[b].downloaded
    requires t.segments == Cut(s.segments, b, k) && t.monitor.Launching?
    ensures StartsApart(t)
  {
    var n := |s.segments|;
    assert forall i :: 0 <= i < n && i != b ==> t.segments[i] == s.segments[i];
    forall j | 0 <= j < n && Open(t, j)
      ensures Open(s, j) && t.segments[j] == s.segments[j]
    {
    }
    assert NoneInside(t) by {
      hide StartsIn;
      forall i, j | 0 <= i <= n && 0 <= j <= n && i != j && t.segments[i].length > 0 && Open(t, j)
        ensures !StartsIn(t.segments[i], t.segments[j])
      {
        assert !StartsIn(s.segments[i], s.segments[j]);
        SameStart(s.segments[i], t.segments[i], s.segments[j]);
      }
    }
    assert OffsetsDiffer(t) by {
      hide Open;
    }
  }

  lemma SameStart(a: Segment, b: Segment, c: Segment)
    requires a.offset == b.offset
    ensures StartsIn(a, c) <==> StartsIn(b, c)
  {
  }

  /** What a task does changes neither where segments start nor where they end. */
  lemma UpdateStarts(s: State, i: nat, segment: Segment, t: State)
    requires StartsApart(s) && i < |s.segments| && t.segments == s.segments[i := segment]
    requires segment.offset == s.segments[i].offset && segment.length == s.segments[i].length
    requires s.segments[i].Completed() ==> segment.Completed()
    requires segment.length <= 0 ==> segment.downloaded == 0 && !segment.phase.Reading?
    requires t.monitor == s.monitor || t.monitor.Launched?
    ensures StartsApart(t)
  {
    assert forall j :: 0 <= j < |t.segments| && Open(t, j) ==> Open(s, j);
    assert NoneInside(t) by {
      hide Open;
    }
    assert OffsetsDiffer(t) by {
      hide Open;
    }
  }

  /** Nothing but the monitor's place or a request changes. */
  lemma SameStarts(s: State, t: State)
    requires StartsApart(s) && t.segments == s.segments
    requires t.monitor == s.monitor || (!t.monitor.Picked? && !t.monitor.Sized?)
    ensures StartsApart(t)
  {
    assert forall j :: 0 <= j < |t.segments| && Open(t, j) ==> Open(s, j);
  }

  lemma PickStarts(c: Config, s: State)
    requires Core(c, s) && StartsApart(s) && PickStep(c, s).Some?
    ensures StartsApart(PickStep(c, s).value)
  {
    hide Core, StartsApart, Best, CutForOffset, Active;
    var t := PickStep(c, s).value;
    if t.monitor.Launching? {
      var (b, k) := CutForOffset(s, s.priority.value).value;
      CutSource(s, s.priority.value);
      SegmentExtent(c, s, b);
      CutStarts(s, b, k, t);
    } else if t.monitor.Picked? {
      SegmentExtent(c, s, t.monitor.seg);
      PickedStarts(s, t);
    } else {
      SameStarts(s, t);
    }
  }

  lemma PickedStarts(s: State, t: State)
    requires StartsApart(s) && t.segments == s.segments && t.monitor.Picked? && t.monitor.seg < |s.segments|
    requires !s.segments[t.monitor.seg].Completed() && s.segments[t.monitor.seg].downloaded >= 0
    ensures StartsApart(t)
  {
    assert forall j :: 0 <= j < |t.segments| && Open(t, j) ==> Open(s, j);
  }

  lemma SizedStarts(c: Config, s: State)
    requires Core(c, s) && StartsApart(s) && SizeStep(s).Some?
    ensures StartsApart(SizeStep(s).value)
  {
    hide Core;
    var t := SizeStep(s).value;
    SegmentExtent(c, s, s.monitor.seg);
    assert forall j :: 0 <= j < |t.segments| && Open(t, j) ==> Open(s, j);
  }

  lemma SplitStarts(c: Config, s: State)
    requires Core(c, s) && StartsApart(s) && SplitStep(s).Some?
    ensures StartsApart(SplitStep(s).value)
  {
    hide Spans, SegmentOk, Tracked, Cut;
    var t := SplitStep(s).value;
    if s.monitor.split > 0 {
      CutStarts(s, s.monitor.seg, s.monitor.split, t);
    } else {
      NoCutStarts(s, s.monitor.seg, s.monitor.split, t);
    }
  }

  lemma NextStarts(c: Config, s: State, step: Step)
    requires Core(c, s) && StartsApart(s) && Next(c, s, step).Some?
    ensures StartsApart(Next(c, s, step).value)
  {
    hide Core, StartsApart, PickStep, Overwrite, TotalProgress, Cut;
    var t := Next(c, s, step).value;
    match step {
      case Plan(i) => TaskStarts(c, s, step);
      case Store(i, n) => TaskStarts(c, s, step);
      case Retry(i) => TaskStarts(c, s, step);
      case Launch =>
        EmptyIsIdle(s, s.monitor.seg);
        UpdateStarts(s, s.monitor.seg, t.segments[s.monitor.seg], t);
      case Pick => PickStarts(c, s);
      case Size => SizedStarts(c, s);
      case Split => SplitStarts(c, s);
      case _ => SameStarts(s, t);
    }
  }

  lemma EmptyIsIdle(s: State, i: nat)
    requires StartsApart(s) && i < |s.segments|
    ensures s.segments[i].length <= 0 ==> s.segments[i].downloaded == 0 && !s.segments[i].phase.Reading?
  {
  }

  lemma TaskStarts(c: Config, s: State, step: Step)
    requires StartsApart(s) && Next(c, s, step).Some? && (step.Plan? || step.Store? || step.Retry?)
    ensures StartsApart(Next(c, s, step).value)
  {
    hide StartsApart, Overwrite;
    var t := Next(c, s, step).value;
    EmptyIsIdle(s, step.i);
    UpdateStarts(s, step.i, t.segments[step.i], t);
  }

  lemma {:induction false} RunStarts(c: Config, s: State, steps: seq<Step>)
    requires Core(c, s) && StartsApart(s) && Run(c, s, steps).Some?
    ensures var t := Run(c, s, steps).value; Core(c, t) && StartsApart(t)
    decreases |steps|
  {
    hide Core, StartsApart, Next;
    if steps != [] {
      NextCore(c, s, steps[0]);
      NextStarts(c, s, steps[0]);
      RunStarts(c, Next(c, s, steps[0]).value, steps[1..]);
    }
  }

  // ---------- the bound ----------

  /** 0 + 1 + ... + `n`. */
  function Triangle(n: nat): nat { if n == 0 then 0 else n + Triangle(n - 1) }

  lemma {:induction false} TriangleIs(n: nat)
    ensures 2 * Triangle(n) == n * (n + 1)
  {
    if n > 0 {
      TriangleIs(n - 1);
    }
  }

  /** What has been downloaded for the segments that start at `m`, or from `m` on. */
  function SumAt(segments: seq<Segment>, m: int): int
  {
    if segments == [] then 0 else (if segments[0].offset == m then segments[0].downloaded else 0) + SumAt(segments[1..], m)
  }

  function SumFrom(segments: seq<Segment>, m: int): int
  {
    if segments == [] then 0 else (if segments[0].offset >= m then segments[0].downloaded else 0) + SumFrom(segments[1..], m)
  }

  /** Segments within a file, of which no two that have downloaded anything start at the same place. */
  predicate Loaded(segments: seq<Segment>, total: nat)
  {
    && (forall i :: 0 <= i < |segments| ==>
          0 <= segments[i].offset && 0 <= segments[i].downloaded && segments[i].offset + segments[i].downloaded <= total)
    && (forall i, j :: 0 <= i < j < |segments| && segments[i].downloaded > 0 && segments[j].downloaded > 0 ==>
          segments[i].offset != segments[j].offset)
  }

  lemma RestLoaded(segments: seq<Segment>, total: nat)
    requires segments != [] && Loaded(segments, total)
    ensures Loaded(segments[1..], total)
    ensures segments[0].downloaded > 0 ==>
      forall i :: 0 <= i < |segments[1..]| && segments[1..][i].offset == segments[0].offset ==> segments[1..][i].downloaded == 0
  {
    var rest := segments[1..];
    assert forall i :: 0 <= i < |rest| ==> rest[i] == segments[i + 1];
  }

  lemma {:induction false} NothingAt(segments: seq<Segment>, m: int)
    requires forall i :: 0 <= i < |segments| && segments[i].offset == m ==> segments[i].downloaded == 0
    ensures SumAt(segments, m) == 0
  {
    if segments != [] {
      assert forall i :: 0 <= i < |segments[1..]| ==> segments[1..][i] == segments[i + 1];
      NothingAt(segments[1..], m);
    }
  }

  lemma {:induction false} SumAtBound(segments: seq<Segment>, total: nat, m: nat)
    requires Loaded(segments, total) && m <= total
    ensures SumAt(segments, m) <= total - m
  {
    if segments != [] {
      RestLoaded(segments, total);
      if segments[0].offset == m && segments[0].downloaded > 0 {
        NothingAt(segments[1..], m);
      } else {
        SumAtBound(segments[1..], total, m);
      }
    }
  }

  lemma {:induction false} SumFromStep(segments: seq<Segment>, m: int)
    ensures SumFrom(segments, m) == SumAt(segments, m) + SumFrom(segments, m + 1)
  {
    if segments != [] {
      SumFromStep(segments[1..], m);
    }
  }

  lemma {:induction false} SumFromEnd(segments: seq<Segment>, total: nat)
    requires Loaded(segments, total)
    ensures SumFrom(segments, total) == 0 && SumFrom(segments, 0) == SumDownloaded(segments)
  {
    if segments != [] {
      RestLoaded(segments, total);
      SumFromEnd(segments[1..], total);
    }
  }

  lemma {:induction false} SumFromBound(segments: seq<Segment>, total: nat, m: nat)
    requires Loaded(segments, total) && m <= total
    ensures SumFrom(segments, m) <= Triangle(total - m)
    decreases total - m
  {
    hide Loaded, SumFrom, SumAt;
    if m == total {
      SumFromEnd(segments, total);
    } else {
      SumFromStep(segments, m);
      SumAtBound(segments, total, m);
      SumFromBound(segments, total, m + 1);
    }
  }

  lemma CoreIsLoaded(c: Config, s: State)
    requires Core(c, s) && StartsApart(s)
    ensures Loaded(s.segments, s.Total())
  {
    hide Spans, Tracked, MonitorFits, CorrectAt, Open;
  }

  /** In every run of every configuration the progress stays within a bound, although stretches of the file
      may be downloaded again and again: for each place, at most what follows it, once. */
  lemma ProgressBounded(c: Config, source: seq<byte>, steps: seq<Step>)
    requires Run(c, Init(source), steps).Some?
    ensures 2 * TotalProgress(Run(c, Init(source), steps).value) <= |source| * (|source| + 1)
  {
    hide Run, Core, StartsApart, Loaded;
    InitInv(c, source);
    InitStarts(source);
    RunStarts(c, Init(source), steps);
    RunProgress(c, Init(source), steps);
    var t := Run(c, Init(source), steps).value;
    CoreIsLoaded(c, t);
    SumFromEnd(t.segments, t.Total());
    SumFromBound(t.segments, t.Total(), 0);
    TriangleIs(|source|);
  }

  lemma InitStarts(source: seq<byte>)
    ensures StartsApart(Init(source))
  {
  }

  /** How many reads of a run have delivered something. */
  function Effective(steps: seq<Step>): nat
  {
    if steps == [] then 0 else (if steps[0].Store? && steps[0].n > 0 then 1 else 0) + Effective(steps[1..])
  }

  lemma {:induction false} EffectiveIsProgress(c: Config, s: State, steps: seq<Step>)
    requires Run(c, s, steps).Some?
    ensures TotalProgress(s) + Effective(steps) <= TotalProgress(Run(c, s, steps).value)
    decreases |steps|
  {
    hide Next, TotalProgress;
    if steps != [] {
      ProgressStep(c, s, steps[0]);
      EffectiveIsProgress(c, Next(c, s, steps[0]).value, steps[1..]);
    }
  }

  /** No run reads for ever: in every configuration the reads that deliver something are bounded by the
      size of the file alone. */
  lemma ReadsBounded(c: Config, source: seq<byte>, steps: seq<Step>)
    requires Run(c, Init(source), steps).Some?
    ensures 2 * Effective(steps) <= |source| * (|source| + 1)
  {
    hide Run, TotalProgress;
    ProgressBounded(c, source, steps);
    EffectiveIsProgress(c, Init(source), steps);
    InitProgress(source);
  }

  lemma InitProgress(source: seq<byte>)
    ensures TotalProgress(Init(source)) == 0
  {
    assert SumDownloaded(Init(source).segments[1..]) == 0;
  }
}
