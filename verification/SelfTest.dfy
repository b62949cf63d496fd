/** The stream self-test: two hash passes and a chunked comparison of a direct and a segmented stream. */
module SelfTest {
  import opened Bytes

  /** A readable stream. A read delivers any positive amount up to the request, and 0 only at the end. */
  class ByteStream {
    const contents: seq<byte>
    var pos: nat

    constructor (bytes: seq<byte>)
      ensures contents == bytes && pos == 0
    {
      contents, pos := bytes, 0;
    }

    predicate Valid()
      reads this
    {
      pos <= |contents|
    }

    method Read(buffer: array<byte>, offset: nat, count: nat) returns (k: nat)
      requires Valid() && offset + count <= buffer.Length
      modifies this, buffer
      ensures Valid() && k <= count && pos == old(pos) + k
      ensures k == 0 <==> count == 0 || old(pos) == |contents|
      ensures forall i :: offset <= i < offset + k ==> buffer[i] == contents[old(pos) + (i - offset)]
      ensures forall i :: 0 <= i < offset || offset + k <= i < buffer.Length ==> buffer[i] == old(buffer[i])
    {
      var available := |contents| - pos;
      var most := if count <= available then count else available;
      k := *;
      if k < 1 || most < k {
        k := most;
      }
      ghost var before := buffer[..];
      for i := 0 to k
        invariant pos == old(pos)
        invariant forall j :: offset <= j < offset + i ==> buffer[j] == contents[pos + (j - offset)]
        invariant forall j :: 0 <= j < offset || offset + i <= j < buffer.Length ==> buffer[j] == before[j]
      {
        buffer[offset + i] := contents[pos + i];
      }
      pos := pos + k;
    }
  }

  /** Reads until `count` bytes are there or the stream ends, whatever the sizes of the single reads. */
  method FillBuffer(stream: ByteStream, buffer: array<byte>, count: nat) returns (ok: bool, read: nat)
    requires stream.Valid() && count <= buffer.Length
    modifies stream, buffer
    ensures stream.Valid() && stream.pos == old(stream.pos) + read
    ensures read <= count && (read < count ==> stream.pos == |stream.contents|)
    ensures ok <==> read > 0
    ensures forall i :: 0 <= i < read ==> buffer[i] == stream.contents[old(stream.pos) + i]
    ensures buffer[read..] == old(buffer[read..])
  {
    read := 0;
    ghost var start := stream.pos;
    while read < count
      invariant read <= count && stream.Valid() && stream.pos == start + read
      invariant forall i :: 0 <= i < read ==> buffer[i] == stream.contents[start + i]
      invariant forall i :: read <= i < buffer.Length ==> buffer[i] == old(buffer[i])
      decreases count - read
    {
      var current := stream.Read(buffer, read, count - read);
      if current == 0 {
        break;
      }
      read := read + current;
    }
    ok := read > 0;
  }

  /** One hash pass: everything read goes to the hash, in order and once. */
  method HashPass(stream: ByteStream, buf: array<byte>, totalSize: int) returns (fed: seq<byte>)
    requires stream.Valid() && stream.pos == 0 && 0 < buf.Length
    modifies stream, buf
    ensures fed <= stream.contents
    ensures |stream.contents| <= totalSize ==> fed == stream.contents
    ensures totalSize <= |stream.contents| ==> totalSize <= |fed| && (|fed| == 0 || |fed| < totalSize + buf.Length)
  {
    fed := [];
    var pos := 0;
    while pos < totalSize
      invariant pos == |fed| == stream.pos <= |stream.contents| && fed == stream.contents[..pos]
      invariant pos == 0 || pos < totalSize + buf.Length
      decreases totalSize - pos
    {
      var r := stream.Read(buf, 0, buf.Length);
      if r == 0 {
        break;
      }
      assert buf[..r] == stream.contents[pos..pos + r];
      fed := fed + buf[..r];
      pos := pos + r;
    }
  }

  // ---------- the comparison ----------

  datatype Verdict =
    | Clean
    | ByteMismatch(offset: int)
    | SizeMismatch(offset: int)
    | UnexpectedEof(offset: int)

  function Min(x: int, y: int): int { if x <= y then x else y }

  /** How much of a stream the comparison looks at. */
  function Visible(s: seq<byte>, totalSize: int): (n: nat)
    ensures n <= |s|
  {
    if totalSize <= 0 then 0 else Min(|s|, totalSize)
  }

  predicate Agree(a: seq<byte>, b: seq<byte>, n: int)
  {
    n <= |a| && n <= |b| && forall i :: 0 <= i < n ==> a[i] == b[i]
  }

  /** The least index below `n` at which two strings differ, or `n`. */
  function LeastDifference(a: seq<byte>, b: seq<byte>, n: nat): (d: nat)
    requires n <= |a| && n <= |b|
    ensures d <= n && Agree(a, b, d) && (d < n ==> a[d] != b[d])
  {
    if n == 0 then 0
    else
      var d := LeastDifference(a, b, n - 1);
      if d < n - 1 || a[n - 1] != b[n - 1] then d else n
  }

  lemma LeastDifferenceIs(a: seq<byte>, b: seq<byte>, n: nat, d: nat)
    requires n <= |a| && n <= |b| && d <= n
    requires Agree(a, b, d) && (d < n ==> a[d] != b[d])
    ensures LeastDifference(a, b, n) == d
  {
  }

  /** The start of the chunk that contains an offset. */
  function ChunkStart(offset: nat, chunk: nat): (c: nat)
    requires chunk > 0
    ensures c <= offset < c + chunk
  {
    if offset < chunk then 0 else chunk + ChunkStart(offset - chunk, chunk)
  }

  lemma {:induction false} ChunkStartTwice(offset: nat, chunk: nat)
    requires chunk > 0
    ensures ChunkStart(ChunkStart(offset, chunk), chunk) == ChunkStart(offset, chunk)
  {
    if offset >= chunk {
      ChunkStartTwice(offset - chunk, chunk);
    }
  }

  lemma {:induction false} ChunkStartIs(c: nat, r: nat, chunk: nat)
    requires chunk > 0 && ChunkStart(c, chunk) == c
    ensures r < chunk ==> ChunkStart(c + r, chunk) == c
    ensures ChunkStart(c + chunk, chunk) == c + chunk
    ensures c + chunk <= ChunkStart(c + chunk + r, chunk)
    decreases c
  {
    if c >= chunk {
      ChunkStartIs(c - chunk, r, chunk);
    }
  }

  /** What the comparison reports, for the given contents, announced size and buffer size. When one
      stream is shorter, a difference inside the chunk where it ends is not looked at any more. */
  function Judge(a: seq<byte>, b: seq<byte>, totalSize: int, chunk: nat): Verdict
    requires chunk > 0
  {
    var n, m := Visible(a, totalSize), Visible(b, totalSize);
    var d := LeastDifference(a, b, Min(n, m));
    if n == m then
      if d < n then ByteMismatch(d) else if n != totalSize then UnexpectedEof(n) else Clean
    else if d < ChunkStart(Min(n, m), chunk) then ByteMismatch(d)
    else SizeMismatch(Min(n, m))
  }

  /** The third pass. The verdict names the message that is printed, if any. */
  method CompareStreams(direct: ByteStream, segmented: ByteStream, totalSize: int,
                        directBuffer: array<byte>, segmentedBuffer: array<byte>)
    returns (corruptionDetected: bool, mismatchOffset: int, verdict: Verdict)
    requires direct != segmented && directBuffer != segmentedBuffer
    requires 0 < directBuffer.Length == segmentedBuffer.Length
    requires direct.pos == 0 && segmented.pos == 0
    modifies direct, segmented, directBuffer, segmentedBuffer
    ensures verdict == Judge(direct.contents, segmented.contents, totalSize, directBuffer.Length)
    ensures corruptionDetected <==> !verdict.Clean?
    ensures mismatchOffset == if corruptionDetected then verdict.offset else -1
  {
    hide Judge, LeastDifference, ChunkStart, Visible;
    ghost var a, b, chunk := direct.contents, segmented.contents, directBuffer.Length;
    var verified := 0;
    mismatchOffset, corruptionDetected, verdict := -1, false, Clean;
    FirstChunk(chunk);
    while verified < totalSize
      invariant direct.pos == verified == segmented.pos && (verified == 0 || verified <= totalSize)
      invariant Agree(a, b, verified)
      invariant verified == totalSize || ChunkStart(verified, chunk) == verified || verified == |a| == |b|
      invariant !corruptionDetected && mismatchOffset == -1 && verdict == Clean
      decreases totalSize - verified
    {
      var target := Min(directBuffer.Length, totalSize - verified);
      ghost var turn := Turn(a, b, totalSize, chunk, verified, target);
      var hasDirect, directRead := FillBuffer(direct, directBuffer, target);
      var hasSegmented, segmentedRead := FillBuffer(segmented, segmentedBuffer, target);
      if hasDirect != hasSegmented || directRead != segmentedRead {
        mismatchOffset := verified + Min(directRead, segmentedRead);
        corruptionDetected, verdict := true, SizeMismatch(mismatchOffset);
        SizesDiffer(turn, directRead, segmentedRead);
        break;
      }
      if !hasDirect {
        break;
      }
      var i := 0;
      while i < directRead
        invariant i <= directRead && Agree(a, b, verified + i)
        invariant !corruptionDetected && mismatchOffset == -1 && verdict == Clean
      {
        if directBuffer[i] != segmentedBuffer[i] {
          mismatchOffset := verified + i;
          corruptionDetected, verdict := true, ByteMismatch(mismatchOffset);
          BytesDiffer(turn, directRead, i);
          break;
        }
        i := i + 1;
      }
      if corruptionDetected {
        break;
      }
      NextChunk(turn, directRead);
      verified := verified + directRead;
    }
    if !corruptionDetected {
      Exhausted(a, b, totalSize, chunk, verified);
    }
    if !corruptionDetected && verified != totalSize {
      mismatchOffset := verified;
      corruptionDetected, verdict := true, UnexpectedEof(mismatchOffset);
    }
  }

  // ---------- why one turn of the loop is right ----------

  /** A turn of the comparison loop: both streams agree before `verified`, where a chunk starts unless
      both streams have ended. */
  datatype Turn = Turn(a: seq<byte>, b: seq<byte>, totalSize: int, chunk: nat, verified: nat, target: nat)

  ghost predicate Proper(t: Turn)
  {
    && t.chunk > 0 && t.verified < t.totalSize && t.target == Min(t.chunk, t.totalSize - t.verified)
    && Agree(t.a, t.b, t.verified)
    && (ChunkStart(t.verified, t.chunk) == t.verified || t.verified == |t.a| == |t.b|)
  }

  /** What filling a buffer reads in this turn. */
  function Filling(t: Turn, s: seq<byte>): int { Min(t.target, |s| - t.verified) }

  lemma FirstChunk(chunk: nat)
    requires chunk > 0
    ensures ChunkStart(0, chunk) == 0
  {
  }

  lemma SizesDiffer(t: Turn, x: nat, y: nat)
    requires Proper(t) && x == Filling(t, t.a) && y == Filling(t, t.b) && x != y
    ensures Judge(t.a, t.b, t.totalSize, t.chunk) == SizeMismatch(t.verified + Min(x, y))
  {
    hide LeastDifference, ChunkStart;
    FirstChunk(t.chunk);
    ChunkStartIs(t.verified, Min(x, y), t.chunk);
    assert LeastDifference(t.a, t.b, t.verified + Min(x, y)) >= t.verified;
  }

  lemma BytesDiffer(t: Turn, r: nat, i: nat)
    requires Proper(t) && r == Filling(t, t.a) == Filling(t, t.b) && i < r
    requires Agree(t.a, t.b, t.verified + i) && t.a[t.verified + i] != t.b[t.verified + i]
    ensures Judge(t.a, t.b, t.totalSize, t.chunk) == ByteMismatch(t.verified + i)
  {
    var k := Min(Visible(t.a, t.totalSize), Visible(t.b, t.totalSize));
    LeastDifferenceIs(t.a, t.b, k, t.verified + i);
    if Visible(t.a, t.totalSize) != Visible(t.b, t.totalSize) {
      ChunkStartIs(t.verified, k - t.verified - t.chunk, t.chunk);
    }
  }

  lemma NextChunk(t: Turn, r: nat)
    requires Proper(t) && r == Filling(t, t.a) == Filling(t, t.b) && 0 < r
    ensures var next := t.verified + r;
            next == t.totalSize || ChunkStart(next, t.chunk) == next || next == |t.a| == |t.b|
  {
  }

  lemma Exhausted(a: seq<byte>, b: seq<byte>, totalSize: int, chunk: nat, verified: nat)
    requires chunk > 0 && Agree(a, b, verified) && (verified == 0 || verified <= totalSize)
    requires totalSize <= verified || verified == |a| == |b|
    ensures Judge(a, b, totalSize, chunk) == if verified != totalSize then UnexpectedEof(verified) else Clean
  {
  }

  // ---------- what the verdict means ----------

  /** No corruption is reported exactly when both streams have the announced number of bytes and agree
      on all of them. The buffer size does not matter, and no split of the reads appears at all. */
  lemma CleanIff(a: seq<byte>, b: seq<byte>, totalSize: int, chunk: nat)
    requires chunk > 0
    ensures Judge(a, b, totalSize, chunk).Clean? <==>
      0 <= totalSize <= |a| && totalSize <= |b| && a[..totalSize] == b[..totalSize]
  {
  }

  /** What a reported offset means, for each of the three messages. */
  lemma OffsetMeaning(a: seq<byte>, b: seq<byte>, totalSize: int, chunk: nat)
    requires chunk > 0 && totalSize >= 0
    ensures !Judge(a, b, totalSize, chunk).Clean? ==> 0 <= Judge(a, b, totalSize, chunk).offset < totalSize
    ensures Judge(a, b, totalSize, chunk).ByteMismatch? ==>
      var o := Judge(a, b, totalSize, chunk).offset;
      o < |a| && o < |b| && a[o] != b[o] && a[..o] == b[..o]
    ensures Judge(a, b, totalSize, chunk).SizeMismatch? ==>
      var o := Judge(a, b, totalSize, chunk).offset;
      && |a| != |b| && o == Min(|a|, |b|)
      && a[..ChunkStart(o, chunk)] == b[..ChunkStart(o, chunk)]
    ensures Judge(a, b, totalSize, chunk).UnexpectedEof? ==>
      Judge(a, b, totalSize, chunk).offset == |a| == |b| && a == b
  {
    var n, m := Visible(a, totalSize), Visible(b, totalSize);
    var d := LeastDifference(a, b, Min(n, m));
    assert a[..d] == b[..d];
  }

  /** The exact influence of the buffer size: none on the verdict whether there is corruption, and on the
      message only when one stream ends early and the first difference lies in the chunk of its end. */
  lemma ChunkInfluence(a: seq<byte>, b: seq<byte>, totalSize: int, c1: nat, c2: nat)
    requires c1 > 0 && c2 > 0
    ensures Judge(a, b, totalSize, c1).Clean? <==> Judge(a, b, totalSize, c2).Clean?
    ensures var n, m := Visible(a, totalSize), Visible(b, totalSize);
            var k := Min(n, m);
            var d := LeastDifference(a, b, k);
            Judge(a, b, totalSize, c1) == Judge(a, b, totalSize, c2) <==>
              n == m || (d < ChunkStart(k, c1) <==> d < ChunkStart(k, c2))
  {
  }

  /** Exactly when the reported offset is the first place where the streams differ, be it in a byte or in
      that one of them ends: both look equally long, or they differ in no byte, or in a byte before the
      chunk in which the shorter one ends. */
  lemma OffsetIsFirstIff(a: seq<byte>, b: seq<byte>, totalSize: int, chunk: nat)
    requires chunk > 0 && totalSize >= 0 && !Judge(a, b, totalSize, chunk).Clean?
    ensures var n, m := Visible(a, totalSize), Visible(b, totalSize);
            var k := Min(n, m);
            var d := LeastDifference(a, b, k);
            Judge(a, b, totalSize, chunk).offset == d <==> n == m || d == k || d < ChunkStart(k, chunk)
  {
  }

  /** A pair of streams for which it is not: the reported offset does depend on the buffer size. */
  lemma OffsetDependsOnChunk()
    ensures Judge([1, 0], [2, 0, 0], 3, 1) == ByteMismatch(0)
    ensures Judge([1, 0], [2, 0, 0], 3, 3) == SizeMismatch(2)
  {
  }

  // ---------- the whole self-test ----------

  datatype Report<D> = Report(hash1: D, hash2: D, corruptionDetected: bool, mismatchOffset: int, passed: bool)

  /** All three passes, each on its own freshly opened streams. `passed` is the final message. */
  method RunSelfTest<D(==)>(sha: seq<byte> -> D, direct: ByteStream, segStream: ByteStream,
                            verificationDirect: ByteStream, verificationSegmented: ByteStream, totalSize: int)
    returns (report: Report<D>)
    requires direct != segStream && verificationDirect != verificationSegmented
    requires verificationDirect != direct && verificationDirect != segStream
    requires verificationSegmented != direct && verificationSegmented != segStream
    requires direct.pos == 0 && segStream.pos == 0
    requires verificationDirect.pos == 0 && verificationSegmented.pos == 0
    modifies direct, segStream, verificationDirect, verificationSegmented
    ensures var verdict := Judge(verificationDirect.contents, verificationSegmented.contents, totalSize, 65536);
            && (report.corruptionDetected <==> !verdict.Clean?)
            && report.mismatchOffset == if verdict.Clean? then -1 else verdict.offset
    ensures report.passed <==> report.hash1 == report.hash2 && !report.corruptionDetected
    ensures |direct.contents| <= totalSize ==> report.hash1 == sha(direct.contents)
    ensures |segStream.contents| <= totalSize ==> report.hash2 == sha(segStream.contents)
    // streams of the announced size that reopen with the same contents
    ensures |direct.contents| == |segStream.contents| == totalSize
            && verificationDirect.contents == direct.contents && verificationSegmented.contents == segStream.contents
            ==> (report.passed <==> direct.contents == segStream.contents)
  {
    hide Judge;
    var buf := new byte[65536];
    var fed := HashPass(direct, buf, totalSize);
    var hash1 := sha(fed);
    fed := HashPass(segStream, buf, totalSize);
    var hash2 := sha(fed);
    var verifyDirectBuffer := new byte[65536];
    var verifySegmentedBuffer := new byte[65536];
    var corruptionDetected, mismatchOffset, verdict :=
      CompareStreams(verificationDirect, verificationSegmented, totalSize, verifyDirectBuffer, verifySegmentedBuffer);
    CleanIff(verificationDirect.contents, verificationSegmented.contents, totalSize, 65536);
    report := Report(hash1, hash2, corruptionDetected, mismatchOffset, hash1 == hash2 && !corruptionDetected);
    assert direct.contents[..|direct.contents|] == direct.contents;
    assert segStream.contents[..|segStream.contents|] == segStream.contents;
  }
}
