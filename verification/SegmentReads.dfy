/** What a reader of the segmented download gets to see. */
module SegmentReads {
  import opened Bytes
  import opened Segments
  import opened SegmentsSafety

  // ---------- what is available ----------

  /** The byte at `x` lies in a segment that has been downloaded that far. */
  predicate Available(s: State, x: int)
  {
    exists i :: 0 <= i < |s.segments| && s.segments[i].Covers(x) && x < s.segments[i].offset + s.segments[i].downloaded
  }

  /** Index of the first segment around `x`, or none. */
  function FirstCovering(segments: seq<Segment>, x: int): (i: Option<nat>)
    ensures i.Some? ==> i.value < |segments| && segments[i.value].Covers(x)
    ensures i.None? ==> !Covered(segments, x)
  {
    if segments == [] then None
    else
      var n := |segments| - 1;
      var i := FirstCovering(segments[..n], x);
      if i.Some? then i
      else if segments[n].Covers(x) then Some(n)
      else NoneCovers(segments, x); None
  }

  lemma NoneCovers(segments: seq<Segment>, x: int)
    requires segments != [] && !segments[|segments| - 1].Covers(x) && !Covered(segments[..|segments| - 1], x)
    ensures !Covered(segments, x)
  {
  }

  /** Where what is available of a segment ends. */
  function AvailableEnd(seg: Segment): int
  {
    seg.offset + if seg.downloaded < seg.length then seg.downloaded else seg.length
  }

  /** No segment is around `x`, or the first one has not been downloaded that far. */
  predicate Stops(s: State, x: int)
  {
    var i := FirstCovering(s.segments, x);
    i.None? || AvailableEnd(s.segments[i.value]) <= x
  }

  /** How many bytes from `position` on, at most `limit`, a reader is told to be available: it goes from the
      end of one segment to the first segment around that place. */
  function AvailableRun(s: State, position: int, limit: nat): (n: nat)
    ensures n <= limit && (n < limit ==> Stops(s, position + n))
    ensures forall x :: position <= x < position + n ==> Available(s, x)
    decreases limit
  {
    if limit == 0 || Stops(s, position) then 0
    else
      var end := AvailableEnd(s.segments[FirstCovering(s.segments, position).value]);
      var step := if end - position < limit then end - position else limit;
      step + AvailableRun(s, position + step, limit - step)
  }

  /** How many bytes from `position` on, at most `limit`, are available without a gap. */
  function GaplessRun(s: State, position: int, limit: nat): (n: nat)
    ensures n <= limit && (n < limit ==> !Available(s, position + n))
    ensures forall x :: position <= x < position + n ==> Available(s, x)
    decreases limit
  {
    if limit == 0 || !Available(s, position) then 0 else 1 + GaplessRun(s, position + 1, limit - 1)
  }

  lemma GaplessRunIs(s: State, position: int, limit: nat, n: nat)
    requires n <= limit && (n < limit ==> !Available(s, position + n))
    requires forall x :: position <= x < position + n ==> Available(s, x)
    ensures GaplessRun(s, position, limit) == n
  {
  }

  /** In a divided file only one segment decides whether a byte is available: the one around it, by how far it
      has been downloaded. */
  lemma OneSegmentDecides(c: Config, s: State, i: nat, x: int)
    requires Inv(c, s) && i < |s.segments| && s.segments[i].offset <= x < s.segments[i].offset + s.segments[i].length
    ensures Available(s, x) <==> x < s.segments[i].offset + s.segments[i].downloaded
  {
    hide Core, MonitorOk;
  }

  /** In a divided file the first segment around a byte is as good as any. */
  lemma StopsIff(c: Config, s: State, x: int)
    requires Inv(c, s)
    ensures Stops(s, x) <==> !Available(s, x)
  {
    hide Core, MonitorOk;
    var i := FirstCovering(s.segments, x);
    if i.Some? {
      forall j | 0 <= j < |s.segments| && s.segments[j].Covers(x)
        ensures j == i.value
      {
        assert i.value < j ==> Apart(s.segments[i.value], s.segments[j]);
        assert j < i.value ==> Apart(s.segments[j], s.segments[i.value]);
      }
    }
  }

  /** In a divided file, a reader is told of exactly the gapless run of available bytes. */
  lemma AvailableRunIsGapless(c: Config, s: State, position: int, limit: nat)
    requires Inv(c, s)
    ensures AvailableRun(s, position, limit) == GaplessRun(s, position, limit)
  {
    hide Inv, Stops, AvailableRun, Available;
    var n := AvailableRun(s, position, limit);
    StopsIff(c, s, position + n);
    GaplessRunIs(s, position, limit, n);
  }

  /** One turn of the loop below. */
  lemma AvailableRunTurn(s: State, position: int, limit: nat)
    requires limit > 0
    ensures var i := FirstCovering(s.segments, position);
            if i.None? || AvailableEnd(s.segments[i.value]) <= position then AvailableRun(s, position, limit) == 0
            else
              var end := AvailableEnd(s.segments[i.value]);
              var step := if end - position < limit then end - position else limit;
              AvailableRun(s, position, limit) == step + AvailableRun(s, position + step, limit - step)
  {
    hide FirstCovering, AvailableEnd;
  }

  /** `GetContiguousAvailableBytesUnsafe`; in a divided file, exactly the gapless run of available bytes. */
  method ContiguousAvailable(ghost c: Config, s: State, position: int, requestedBytes: int) returns (n: int)
    ensures requestedBytes <= 0 || position >= s.Total() ==> n == 0
    ensures 0 < requestedBytes && position < s.Total() ==>
      n == AvailableRun(s, position, Limit(s, position, requestedBytes))
    ensures 0 < requestedBytes && position < s.Total() && Inv(c, s) ==>
      n == GaplessRun(s, position, if requestedBytes < |s.source| - position then requestedBytes else |s.source| - position)
  {
    hide Inv, Available, GaplessRun, AvailableRun, Stops, FirstCovering;
    if requestedBytes <= 0 || position >= s.Total() {
      return 0;
    }
    var targetEnd := position + Limit(s, position, requestedBytes);
    var availableEnd := position;
    ghost var whole := AvailableRun(s, position, targetEnd - position);
    while availableEnd < targetEnd
      invariant position <= availableEnd <= targetEnd
      invariant availableEnd - position + AvailableRun(s, availableEnd, targetEnd - availableEnd) == whole
      decreases targetEnd - availableEnd
    {
      AvailableRunTurn(s, availableEnd, targetEnd - availableEnd);
      var found := FirstCovering(s.segments, availableEnd);
      if found.None? {
        break;
      }
      var segment := s.segments[found.value];
      var segmentAvailableEnd := segment.offset + (if segment.downloaded < segment.length then segment.downloaded else segment.length);
      if segmentAvailableEnd <= availableEnd {
        break;
      }
      availableEnd := if segmentAvailableEnd < targetEnd then segmentAvailableEnd else targetEnd;
    }
    n := availableEnd - position;
    if Inv(c, s) {
      AvailableRunIsGapless(c, s, position, targetEnd - position);
    }
  }

  function Limit(s: State, position: int, requestedBytes: int): (limit: nat)
    requires 0 < requestedBytes && position < s.Total()
    ensures 0 < limit <= requestedBytes && position + limit <= s.Total()
  {
    if s.Total() < position + requestedBytes then s.Total() - position else requestedBytes
  }

  // ---------- availability means correctness, for good ----------

  lemma AvailableIsCorrect(c: Config, s: State, x: int)
    requires Core(c, s) && Available(s, x)
    ensures CorrectAt(s, x)
  {
  }

  /** No step touches the remote file or spoils a correct byte. */
  lemma NextMonotone(c: Config, s: State, step: Step)
    requires Next(c, s, step).Some?
    ensures var t := Next(c, s, step).value;
            t.source == s.source && forall x :: CorrectAt(s, x) ==> CorrectAt(t, x)
  {
    hide Cut, CutForOffset, Best;
    if step.Store? {
      StoreCorrect(s, step.i, step.n);
    }
  }

  /** Once correct, always correct, although a split can make a downloaded byte unavailable again. */
  lemma {:induction false} RunMonotone(c: Config, s: State, steps: seq<Step>)
    requires Run(c, s, steps).Some?
    ensures var t := Run(c, s, steps).value;
            t.source == s.source && forall x :: CorrectAt(s, x) ==> CorrectAt(t, x)
    decreases |steps|
  {
    hide Next, CorrectAt;
    if steps != [] {
      NextMonotone(c, s, steps[0]);
      RunMonotone(c, Next(c, s, steps[0]).value, steps[1..]);
    }
  }

  // ---------- reading ----------

  /** The second critical section of `ReadAt`, for a request within the file: what lies in the local file,
      cut to what is available unless nothing is. */
  method ReadLocked(ghost c: Config, s: State, position: nat, count: int) returns (bytes: seq<byte>)
    requires Core(c, s) && 0 < count && position + count <= s.Total()
    ensures bytes == ReadResult(s, position, count)
    ensures |bytes| <= count && bytes == s.buffer[position..position + |bytes|]
    ensures AvailableRun(s, position, count) == count ==> |bytes| == count
    ensures Inv(c, s) ==>
      |bytes| == if GaplessRun(s, position, count) == 0 then count else GaplessRun(s, position, count)
  {
    hide Core, Available, AvailableRun, GaplessRun, Separate;
    SameLength(c, s);
    if Inv(c, s) {
      AvailableRunIsGapless(c, s, position, count);
    }
    var maxAvailable := ContiguousAvailable(c, s, position, count);
    var n := count;
    if n > maxAvailable && maxAvailable > 0 {
      n := maxAvailable;
    }
    bytes := s.buffer[position..position + n];
  }

  lemma SameLength(c: Config, s: State)
    requires Core(c, s)
    ensures |s.buffer| == |s.source|
  {
  }

  function ReadResult(s: State, position: nat, count: nat): (bytes: seq<byte>)
    requires position + count <= |s.buffer|
  {
    var available := AvailableRun(s, position, count);
    var n := if 0 < available then available else count;
    s.buffer[position..position + n]
  }

  /** The wait of `ReadAt` is over: everything asked for is available, or the download looks finished. */
  predicate MayProceed(s: State, position: nat, count: nat)
  {
    AvailableRun(s, position, count) == count || Finished(s)
  }

  /** Every segment's task is in the task list, and the download has not been cancelled. */
  predicate Settled(s: State)
  {
    !s.cancelled && forall i :: 0 <= i < |s.segments| ==> i in s.tasks
  }

  predicate AllCompleted(s: State)
  {
    forall i :: 0 <= i < |s.segments| ==> s.segments[i].Completed()
  }

  /** When all segments are complete, the local file is the remote file. */
  lemma CompletedIsCopied(c: Config, s: State)
    requires Core(c, s) && AllCompleted(s)
    ensures s.buffer == s.source && forall x :: 0 <= x < s.Total() ==> Available(s, x)
  {
    hide Tracked, MonitorFits;
    forall x | 0 <= x < s.Total()
      ensures Available(s, x) && s.buffer[x] == s.source[x]
    {
      assert Covered(s.segments, x);
      var i :| 0 <= i < |s.segments| && s.segments[i].Covers(x);
      assert s.segments[i].Completed();
      AvailableIsCorrect(c, s, x);
    }
  }

  /** A download that looks finished while every task is tracked and none was cancelled is complete. */
  lemma SettledFinishIsComplete(c: Config, s: State)
    requires Core(c, s) && Finished(s) && Settled(s)
    ensures AllCompleted(s) && s.buffer == s.source
  {
    hide Spans, Tracked, MonitorFits;
    forall i | 0 <= i < |s.segments|
      ensures s.segments[i].Completed()
    {
      assert i in s.tasks && SegmentOk(c, s, s.segments[i]);
    }
    CompletedIsCopied(c, s);
  }

  /** No segment has been downloaded past its own end. */
  predicate NoOvershoot(s: State)
  {
    forall i :: 0 <= i < |s.segments| ==> s.segments[i].downloaded <= s.segments[i].length
  }

  lemma {:induction false} DownloadedBySegment(segments: seq<Segment>)
    requires forall i :: 0 <= i < |segments| ==> segments[i].downloaded <= segments[i].length
    ensures SumDownloaded(segments) <= SumLengths(segments)
    ensures SumDownloaded(segments) == SumLengths(segments) <==>
      forall i :: 0 <= i < |segments| ==> segments[i].Completed()
  {
    if segments != [] {
      var rest := segments[1..];
      assert forall i :: 0 <= i < |rest| ==> rest[i] == segments[i + 1];
      DownloadedBySegment(rest);
      assert forall i :: 1 <= i < |segments| ==> segments[i] == rest[i - 1];
    }
  }

  /** Without overshoot the progress count tells the truth: it reaches the total exactly when the
      download is complete. */
  lemma ProgressExactWithoutOvershoot(c: Config, s: State)
    requires Core(c, s) && NoOvershoot(s)
    ensures TotalProgress(s) <= s.Total()
    ensures TotalProgress(s) == s.Total() <==> AllCompleted(s)
  {
    DownloadedBySegment(s.segments);
  }

  /** What a reader can rely on who stops waiting in state `s` and takes its bytes in state `t`: everything
      was or something still is available, or the download did not only look finished in `s`. */
  predicate Trusted(s: State, t: State, position: nat, count: nat)
  {
    AvailableRun(s, position, count) == count || Settled(s) || NoOvershoot(s) || AvailableRun(t, position, count) > 0
  }

  /** Reads are right. A reader stops waiting in state `s`; after any further steps, in `t`, it takes its
      bytes. They are the bytes of the remote file at its position, unless the download only looked
      finished in `s`, with a segment past its end and a task not yet tracked or cancelled, and nothing is
      available in `t`. */
  lemma ReadsAreRight(c: Config, s: State, steps: seq<Step>, position: nat, count: nat)
    requires Core(c, s) && Run(c, s, steps).Some?
    requires 0 < count && position + count <= s.Total() && MayProceed(s, position, count)
    requires Trusted(s, Run(c, s, steps).value, position, count)
    ensures var t := Run(c, s, steps).value;
            && t.source == s.source && |t.buffer| == |s.source|
            && var bytes := ReadResult(t, position, count);
               0 < |bytes| <= count && bytes == s.source[position..position + |bytes|]
  {
    hide Core, Available, AvailableRun, Run, Finished, Settled, NoOvershoot, AllCompleted;
    var t := Run(c, s, steps).value;
    RunCore(c, s, steps);
    RunMonotone(c, s, steps);
    SameLength(c, t);
    var bytes := ReadResult(t, position, count);
    forall x | position <= x < position + |bytes|
      ensures CorrectAt(t, x)
    {
      ByteIsRight(c, s, t, position, count, x);
    }
    assert forall k :: 0 <= k < |bytes| ==> bytes[k] == t.buffer[position + k];
    forall k | 0 <= k < |bytes|
      ensures bytes[k] == s.source[position..position + |bytes|][k]
    {
      assert CorrectAt(t, position + k);
    }
  }

  lemma ByteIsRight(c: Config, s: State, t: State, position: nat, count: nat, x: int)
    requires Core(c, s) && Core(c, t) && t.source == s.source && forall y :: CorrectAt(s, y) ==> CorrectAt(t, y)
    requires 0 < count && position + count <= s.Total() && MayProceed(s, position, count)
    requires Trusted(s, t, position, count)
    requires position <= x < position + |ReadResult(t, position, count)|
    ensures CorrectAt(t, x)
  {
    hide Core, Available, Settled, NoOvershoot, AllCompleted, InProgress, TotalProgress;
    SameLength(c, s);
    SameLength(c, t);
    if AvailableRun(t, position, count) > 0 {
      AvailableIsCorrect(c, t, x);
    } else if AvailableRun(s, position, count) == count {
      AvailableIsCorrect(c, s, x);
    } else {
      if Settled(s) {
        SettledFinishIsComplete(c, s);
      } else {
        ProgressExactWithoutOvershoot(c, s);
        CompletedIsCopied(c, s);
      }
      assert CorrectAt(s, x);
    }
  }

  // ---------- scan progress ----------

  /** `segments` in the order of their offsets. */
  predicate Ordered(segments: seq<Segment>)
  {
    forall i, j :: 0 <= i < j < |segments| ==> segments[i].offset <= segments[j].offset
  }

  /** How far the first `n` segments reach. */
  function Reach(ordered: seq<Segment>, n: nat): (r: int)
    requires n <= |ordered|
    ensures r >= 0
  {
    if n == 0 then 0
    else
      var before, end := Reach(ordered, n - 1), ordered[n - 1].offset + ordered[n - 1].downloaded;
      if before < end then end else before
  }

  lemma ReachFromZero(ordered: seq<Segment>)
    ensures Reach(ordered, 0) == 0
  {
  }

  lemma ReachStep(ordered: seq<Segment>, n: nat)
    requires n < |ordered|
    ensures var end := ordered[n].offset + ordered[n].downloaded;
            Reach(ordered, n + 1) == if Reach(ordered, n) < end then end else Reach(ordered, n)
  {
  }

  lemma {:induction false} ReachAtLeast(ordered: seq<Segment>, n: nat, k: nat)
    requires k < n <= |ordered|
    ensures ordered[k].offset + ordered[k].downloaded <= Reach(ordered, n)
  {
    if k < n - 1 {
      ReachAtLeast(ordered, n - 1, k);
    }
  }

  /** Where the scan gets to is where one of the segments has been downloaded to. */
  lemma {:induction false} ReachedBy(ordered: seq<Segment>, n: nat) returns (k: nat)
    requires n <= |ordered| && Reach(ordered, n) > 0
    ensures k < n && Reach(ordered, n) == ordered[k].offset + ordered[k].downloaded
  {
    if Reach(ordered, n) == Reach(ordered, n - 1) {
      k := ReachedBy(ordered, n - 1);
    } else {
      k := n - 1;
    }
  }

  /** None of the first `n` segments leaves a gap. */
  predicate Gapless(ordered: seq<Segment>, n: nat)
    requires n <= |ordered|
  {
    forall k :: 0 <= k < n ==> ordered[k].offset <= Reach(ordered, k)
  }

  predicate CompletedUpTo(ordered: seq<Segment>, n: int)
    requires n <= |ordered|
  {
    forall k :: 0 <= k < n ==> ordered[k].Completed()
  }

  /** The scan takes in the first `n` segments: none leaves a gap, all but the last are complete, and it
      stops there because the last is not, or the next one leaves a gap, or there is none. */
  predicate ScansTo(ordered: seq<Segment>, n: nat)
  {
    && n <= |ordered| && Gapless(ordered, n) && CompletedUpTo(ordered, n - 1)
    && (n == |ordered| || (n > 0 && !ordered[n - 1].Completed()) || ordered[n].offset > Reach(ordered, n))
  }

  /** `ordered` lists the segments, in whatever order. */
  ghost predicate SameSegments(ordered: seq<Segment>, segments: seq<Segment>)
  {
    forall seg :: seg in ordered <==> seg in segments
  }

  lemma Listed(ordered: seq<Segment>, segments: seq<Segment>, k: nat) returns (i: nat)
    requires SameSegments(ordered, segments) && k < |ordered|
    ensures i < |segments| && segments[i] == ordered[k]
  {
    assert ordered[k] in segments;
    i :| i < |segments| && segments[i] == ordered[k];
  }

  lemma Placed(ordered: seq<Segment>, segments: seq<Segment>, i: nat) returns (k: nat)
    requires SameSegments(ordered, segments) && i < |segments|
    ensures k < |ordered| && segments[i] == ordered[k]
  {
    assert segments[i] in ordered;
    k :| k < |ordered| && segments[i] == ordered[k];
  }

  /** `ScanProgress`: the furthest place reached from the start without a gap. The local file is right up to
      there, in a divided file it is at least the gapless run of available bytes, exactly that when no segment
      was downloaded past its end, and a complete download is scanned to the end. */
  method ScanProgress(ghost c: Config, s: State, ordered: seq<Segment>) returns (progress: int, ghost n: nat)
    requires Core(c, s) && Ordered(ordered) && SameSegments(ordered, s.segments)
    ensures ScansTo(ordered, n) && progress == Reach(ordered, n)
    ensures 0 <= progress <= s.Total() && s.buffer[..progress] == s.source[..progress]
    ensures Inv(c, s) ==> progress >= GaplessRun(s, 0, s.Total())
    ensures Inv(c, s) && NoOvershoot(s) ==> progress == GaplessRun(s, 0, s.Total())
    ensures AllCompleted(s) ==> progress == s.Total()
  {
    progress, n := Scan(ordered);
    hide *;
    ScanIsRight(c, s, ordered, n);
    if Inv(c, s) {
      ScanReachesGapless(c, s, ordered, n);
      if NoOvershoot(s) {
        ScanIsGapless(c, s, ordered, n);
      }
    }
    if AllCompleted(s) {
      ScanIsWhole(c, s, ordered, n);
    }
  }

  /** The loop of `ScanProgress`. */
  method Scan(ordered: seq<Segment>) returns (progress: int, ghost n: nat)
    ensures ScansTo(ordered, n) && progress == Reach(ordered, n)
  {
    hide Reach;
    ReachFromZero(ordered);
    progress := 0;
    var i := 0;
    while i < |ordered|
      invariant 0 <= i <= |ordered| && progress == Reach(ordered, i)
      invariant Gapless(ordered, i) && CompletedUpTo(ordered, i)
    {
      var seg := ordered[i];
      if seg.offset > progress {
        break;
      }
      ReachStep(ordered, i);
      progress := if progress < seg.offset + seg.downloaded then seg.offset + seg.downloaded else progress;
      i := i + 1;
      if !seg.Completed() {
        break;
      }
    }
    n := i;
  }

  /** Every byte the scan takes in lies in what was downloaded for one of its segments. */
  lemma {:induction false} ScannedBy(ordered: seq<Segment>, n: nat, x: int) returns (k: nat)
    requires n <= |ordered| && Gapless(ordered, n) && 0 <= x < Reach(ordered, n)
    ensures k < n && ordered[k].offset <= x < ordered[k].offset + ordered[k].downloaded
  {
    hide Reach;
    ReachFromZero(ordered);
    ReachStep(ordered, n - 1);
    if x < Reach(ordered, n - 1) {
      k := ScannedBy(ordered, n - 1, x);
    } else {
      k := n - 1;
    }
  }

  lemma ScanIsRight(c: Config, s: State, ordered: seq<Segment>, n: nat)
    requires Core(c, s) && ScansTo(ordered, n) && SameSegments(ordered, s.segments)
    ensures 0 <= Reach(ordered, n) <= s.Total() && s.buffer[..Reach(ordered, n)] == s.source[..Reach(ordered, n)]
  {
    hide Core, Reach, SameSegments, Gapless, CompletedUpTo;
    var r := Reach(ordered, n);
    SameLength(c, s);
    if r > 0 {
      var k := ReachedBy(ordered, n);
      var i := Listed(ordered, s.segments, k);
      SegmentExtent(c, s, i);
    }
    forall x | 0 <= x < r
      ensures s.buffer[x] == s.source[x]
    {
      var k := ScannedBy(ordered, n, x);
      var i := Listed(ordered, s.segments, k);
      DownloadedIsCorrect(c, s, i, x);
    }
  }

  lemma DownloadedIsCorrect(c: Config, s: State, i: nat, x: int)
    requires Core(c, s) && i < |s.segments|
    requires s.segments[i].offset <= x < s.segments[i].offset + s.segments[i].downloaded
    ensures CorrectAt(s, x)
  {
    hide Spans, Tracked, MonitorFits;
  }

  /** The scan does not stop before a byte that is not available. */
  lemma ScanReachesGapless(c: Config, s: State, ordered: seq<Segment>, n: nat)
    requires Inv(c, s) && Ordered(ordered) && ScansTo(ordered, n) && SameSegments(ordered, s.segments)
    ensures Reach(ordered, n) >= GaplessRun(s, 0, s.Total())
  {
    hide Inv, SameSegments, GaplessRun, Reach, Ordered, Gapless, CompletedUpTo;
    if n > 0 && !ordered[n - 1].Completed() {
      ReachAtLeast(ordered, n, n - 1);
      var i := Listed(ordered, s.segments, n - 1);
      IncompleteEndsRun(c, s, i);
    } else {
      NotAvailableBeyond(c, s, ordered, n);
    }
  }

  lemma IncompleteEndsRun(c: Config, s: State, i: nat)
    requires Inv(c, s) && i < |s.segments| && !s.segments[i].Completed()
    ensures GaplessRun(s, 0, s.Total()) <= s.segments[i].offset + s.segments[i].downloaded
  {
    hide Core, Separate, GaplessRun, Available;
    var x := s.segments[i].offset + s.segments[i].downloaded;
    SegmentExtent(c, s, i);
    OneSegmentDecides(c, s, i, x);
  }

  lemma NotAvailableBeyond(c: Config, s: State, ordered: seq<Segment>, n: nat)
    requires Ordered(ordered) && SameSegments(ordered, s.segments) && n <= |ordered|
    requires n == |ordered| || ordered[n].offset > Reach(ordered, n)
    ensures GaplessRun(s, 0, s.Total()) <= Reach(ordered, n)
  {
    hide SameSegments, GaplessRun, Reach, Available;
    var x := Reach(ordered, n);
    if Available(s, x) {
      var i := AvailableIn(s, x);
      var k := Placed(ordered, s.segments, i);
      if k < n {
        ReachAtLeast(ordered, n, k);
      }
    }
  }

  lemma AvailableIn(s: State, x: int) returns (i: nat)
    requires Available(s, x)
    ensures i < |s.segments| && s.segments[i].offset <= x < s.segments[i].offset + s.segments[i].downloaded
  {
    i :| 0 <= i < |s.segments| && s.segments[i].Covers(x) && x < s.segments[i].offset + s.segments[i].downloaded;
  }

  lemma ScanIsGapless(c: Config, s: State, ordered: seq<Segment>, n: nat)
    requires NoOvershoot(s) && ScansTo(ordered, n) && SameSegments(ordered, s.segments)
    requires Reach(ordered, n) <= s.Total()
    ensures Reach(ordered, n) <= GaplessRun(s, 0, s.Total())
  {
    hide SameSegments, GaplessRun, Reach, Gapless, CompletedUpTo, Available, NoOvershoot;
    var g := GaplessRun(s, 0, s.Total());
    if g < Reach(ordered, n) {
      var k := ScannedBy(ordered, n, g);
      var i := Listed(ordered, s.segments, k);
      DownloadedIsAvailable(s, i, g);
    }
  }

  lemma DownloadedIsAvailable(s: State, i: nat, x: int)
    requires NoOvershoot(s) && i < |s.segments|
    requires s.segments[i].offset <= x < s.segments[i].offset + s.segments[i].downloaded
    ensures Available(s, x)
  {
    assert s.segments[i].Covers(x);
  }

  lemma ScanIsWhole(c: Config, s: State, ordered: seq<Segment>, n: nat)
    requires Core(c, s) && AllCompleted(s) && Ordered(ordered) && ScansTo(ordered, n) && SameSegments(ordered, s.segments)
    requires Reach(ordered, n) <= s.Total()
    ensures Reach(ordered, n) == s.Total()
  {
    hide Reach, Core, SameSegments, Ordered, Gapless, CompletedUpTo;
    if Reach(ordered, n) < s.Total() {
      if n > 0 {
        var i := Listed(ordered, s.segments, n - 1);
      }
      CompletedReach(c, s, ordered, n);
      NoGap(c, s, ordered, n, Reach(ordered, n));
    }
  }

  lemma CompletedReach(c: Config, s: State, ordered: seq<Segment>, n: nat)
    requires AllCompleted(s) && SameSegments(ordered, s.segments) && n <= |ordered|
    ensures forall k :: 0 <= k < n ==> ordered[k].offset + ordered[k].length <= Reach(ordered, n)
  {
    hide Reach, SameSegments;
    forall k | 0 <= k < n
      ensures ordered[k].offset + ordered[k].length <= Reach(ordered, n)
    {
      var i := Listed(ordered, s.segments, k);
      ReachAtLeast(ordered, n, k);
      assert s.segments[i].Completed();
    }
  }

  /** Before the end of the file, some segment around the next byte is in the list. */
  lemma NoGap(c: Config, s: State, ordered: seq<Segment>, i: nat, progress: int)
    requires Core(c, s) && Ordered(ordered) && i <= |ordered| && SameSegments(ordered, s.segments)
    requires 0 <= progress < s.Total()
    requires forall k :: 0 <= k < i ==> ordered[k].offset + ordered[k].length <= progress
    ensures i < |ordered| && ordered[i].offset <= progress
  {
    hide Tracked, MonitorFits, SegmentOk, SameSegments;
    assert Covered(s.segments, progress);
    var j :| 0 <= j < |s.segments| && s.segments[j].Covers(progress);
    var k := Placed(ordered, s.segments, j);
    assert k >= i;
  }
}
