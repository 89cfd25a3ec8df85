/** A file cut into numbered segments (file_handle.c).

    Segments are numbered from one. The position to read from is cast to 32 bits, so the cut is
    lossless exactly as long as the last segment starts below 2^32.
 */
module FileHandle {
  import opened Arithmetic
  import opened Bytes

  /** Files a signed 64-bit offset can address. */
  const FILE_LIMIT: nat := 0x8000_0000_0000_0000

  const SEEK_LIMIT: nat := 0x1_0000_0000

  /** num_segments_in_file_handle. */
  function NumSegments(fileSize: nat, segmentSize: nat): nat
    requires segmentSize > 0
  {
    if fileSize % segmentSize == 0 then fileSize / segmentSize else fileSize / segmentSize + 1
  }

  /** Start of the `k`-th segment. */
  function Start(k: nat, segmentSize: nat): nat
    requires k > 0
  {
    (k - 1) * segmentSize
  }

  lemma SegmentRange(fileSize: nat, segmentSize: nat, k: nat)
    requires segmentSize > 0 && 1 <= k <= NumSegments(fileSize, segmentSize)
    ensures Start(k, segmentSize) < fileSize
    ensures k < NumSegments(fileSize, segmentSize) ==> Start(k + 1, segmentSize) < fileSize
    ensures k == NumSegments(fileSize, segmentSize) ==> fileSize <= Start(k + 1, segmentSize)
    ensures Start(k + 1, segmentSize) == Start(k, segmentSize) + segmentSize
  {
    var q, r := fileSize / segmentSize, fileSize % segmentSize;
    assert fileSize == q * segmentSize + r;
    var n := NumSegments(fileSize, segmentSize);
    ProductGrows(k - 1, n - 1, segmentSize);
    assert (n - 1) * segmentSize < fileSize <= n * segmentSize by {
      ProductGrows(q, q + 1, segmentSize);
      if r == 0 {
        ProductGrows(q - 1, q, segmentSize);
      }
    }
    if k < n {
      ProductGrows(k, n - 1, segmentSize);
    }
    ProductGrows(k - 1, k, segmentSize);
  }

  /** How many bytes the `k`-th segment has. */
  function SegmentLength(fileSize: nat, k: nat, segmentSize: nat): nat
    requires segmentSize > 0 && 1 <= k <= NumSegments(fileSize, segmentSize)
  {
    SegmentRange(fileSize, segmentSize, k);
    if Start(k, segmentSize) + segmentSize > fileSize then fileSize - Start(k, segmentSize)
    else segmentSize
  }

  /** The bytes that are read for segment `k`; none outside the range. */
  function Segment(file: seq<byte>, k: nat, segmentSize: nat): (s: seq<byte>)
    requires segmentSize > 0
    ensures |s| <= segmentSize && |s| <= |file|
  {
    if k == 0 || k > NumSegments(|file|, segmentSize) then []
    else
      var n := SegmentLength(|file|, k, segmentSize);
      var at := Start(k, segmentSize) % SEEK_LIMIT;
      SegmentRange(|file|, segmentSize, k);
      file[at..at + n]
  }

  /** segment_in_file_handle: nothing for a number out of range. */
  method SegmentInFileHandle(file: seq<byte>, segmentNum: nat, segmentSize: nat)
    returns (ret: Option<seq<byte>>, numBytes: nat)
    requires segmentSize > 0 && |file| < FILE_LIMIT
    ensures ret.None? <==> segmentNum == 0 || segmentNum > NumSegments(|file|, segmentSize)
    ensures numBytes == |Segment(file, segmentNum, segmentSize)|
    ensures ret.Some? ==> ret.value == Segment(file, segmentNum, segmentSize)
  {
    if segmentNum == 0 || segmentNum > NumSegments(|file|, segmentSize) {
      return None, 0;
    }
    SegmentRange(|file|, segmentSize, segmentNum);
    var start := (segmentNum - 1) * segmentSize;
    numBytes := if start + segmentSize > |file| then |file| - start else segmentSize;
    var pos := start % SEEK_LIMIT;
    ret := Some(file[pos..pos + numBytes]);
  }

  /** Segments 1 to `k`, one after the other. */
  function SegmentsJoined(file: seq<byte>, segmentSize: nat, k: nat): seq<byte>
    requires segmentSize > 0
  {
    if k == 0 then [] else SegmentsJoined(file, segmentSize, k - 1) + Segment(file, k, segmentSize)
  }

  /** Every segment is non-empty, and all but the last have full size. */
  lemma SegmentSizes(file: seq<byte>, k: nat, segmentSize: nat)
    requires segmentSize > 0 && 1 <= k <= NumSegments(|file|, segmentSize)
    ensures 0 < |Segment(file, k, segmentSize)| <= segmentSize
    ensures k < NumSegments(|file|, segmentSize) ==> |Segment(file, k, segmentSize)| == segmentSize
  {
    hide NumSegments, Start;
    SegmentRange(|file|, segmentSize, k);
  }

  /** Segment numbers in range are those whose start is inside the file. */
  lemma InRangeIff(fileSize: nat, k: nat, segmentSize: nat)
    requires segmentSize > 0 && k > 0
    ensures k <= NumSegments(fileSize, segmentSize) <==> (k - 1) * segmentSize < fileSize
  {
    hide NumSegments;
    var n := NumSegments(fileSize, segmentSize);
    if k <= n {
      SegmentRange(fileSize, segmentSize, k);
    } else if n == 0 {
      NoSegments(fileSize, segmentSize);
      ProductGrows(0, k - 1, segmentSize);
    } else {
      SegmentRange(fileSize, segmentSize, n);
      ProductGrows(n, k - 1, segmentSize);
    }
  }

  /** What is read for any number and any file: as many bytes as there are from the start of the
      segment on, up to its size, but taken from that start modulo 2^32. */
  lemma SegmentBytes(file: seq<byte>, k: nat, segmentSize: nat)
    requires segmentSize > 0
    ensures var s := Segment(file, k, segmentSize);
      if k == 0 || |file| <= (k - 1) * segmentSize then s == []
      else
        var start := (k - 1) * segmentSize;
        && |s| == Min(segmentSize, |file| - start)
        && start % 0x1_0000_0000 + |s| <= |file|
        && forall i :: 0 <= i < |s| ==> s[i] == file[start % 0x1_0000_0000 + i]
  {
    hide NumSegments;
    if k > 0 {
      InRangeIff(|file|, k, segmentSize);
      if k <= NumSegments(|file|, segmentSize) {
        SegmentRange(|file|, segmentSize, k);
      }
    }
  }

  /** Bytes before the end of segment `k`. */
  function Covered(fileSize: nat, segmentSize: nat, k: nat): nat {
    Min(k * segmentSize, fileSize)
  }

  lemma CoveredStep(fileSize: nat, segmentSize: nat, k: nat)
    requires segmentSize > 0 && 1 <= k <= NumSegments(fileSize, segmentSize)
    ensures Covered(fileSize, segmentSize, k - 1) == Start(k, segmentSize)
    ensures Covered(fileSize, segmentSize, k)
         == Start(k, segmentSize) + SegmentLength(fileSize, k, segmentSize)
  {
    hide NumSegments;
    SegmentRange(fileSize, segmentSize, k);
  }

  lemma CoveredAll(fileSize: nat, segmentSize: nat)
    requires segmentSize > 0
    ensures Covered(fileSize, segmentSize, NumSegments(fileSize, segmentSize)) == fileSize
  {
    hide NumSegments, Start;
    var n := NumSegments(fileSize, segmentSize);
    if n > 0 {
      SegmentRange(fileSize, segmentSize, n);
      CoveredStep(fileSize, segmentSize, n);
    } else {
      NoSegments(fileSize, segmentSize);
    }
  }

  lemma NoSegments(fileSize: nat, segmentSize: nat)
    requires segmentSize > 0 && NumSegments(fileSize, segmentSize) == 0
    ensures fileSize == 0
  {
    assert fileSize == fileSize / segmentSize * segmentSize + fileSize % segmentSize;
  }

  lemma {:induction false} JoinedLength(file: seq<byte>, segmentSize: nat, k: nat)
    requires segmentSize > 0 && k <= NumSegments(|file|, segmentSize)
    ensures |SegmentsJoined(file, segmentSize, k)| == Covered(|file|, segmentSize, k)
  {
    hide NumSegments, Start, Covered;
    if k > 0 {
      JoinedLength(file, segmentSize, k - 1);
      CoveredStep(|file|, segmentSize, k);
    } else {
      NothingCovered(|file|, segmentSize);
    }
  }

  lemma NothingCovered(fileSize: nat, segmentSize: nat)
    ensures Covered(fileSize, segmentSize, 0) == 0
  {
  }

  lemma {:induction false} JoinedIsPrefix(file: seq<byte>, segmentSize: nat, k: nat)
    requires segmentSize > 0 && k <= NumSegments(|file|, segmentSize)
    requires k > 0 ==> Start(k, segmentSize) < SEEK_LIMIT
    ensures SegmentsJoined(file, segmentSize, k) == file[..Covered(|file|, segmentSize, k)]
  {
    hide NumSegments, Start, Covered, Segment, SegmentLength;
    if k == 0 {
      NothingCovered(|file|, segmentSize);
    } else {
      if k > 1 {
        SegmentRange(|file|, segmentSize, k - 1);
      }
      JoinedIsPrefix(file, segmentSize, k - 1);
      CoveredStep(|file|, segmentSize, k);
      SegmentInPlace(file, k, segmentSize);
      JoinPrefix(file, Start(k, segmentSize), SegmentLength(|file|, k, segmentSize));
    }
  }

  lemma JoinPrefix(file: seq<byte>, at: nat, n: nat)
    requires at + n <= |file|
    ensures file[..at] + file[at..at + n] == file[..at + n]
  {
  }

  lemma FirstByteRead(file: seq<byte>, k: nat, segmentSize: nat)
    requires segmentSize > 0 && 1 <= k <= NumSegments(|file|, segmentSize)
    ensures var at := Start(k, segmentSize) % SEEK_LIMIT;
      at < |file| && |Segment(file, k, segmentSize)| > 0 && Segment(file, k, segmentSize)[0] == file[at]
  {
    hide NumSegments, Start;
    SegmentRange(|file|, segmentSize, k);
  }

  lemma SegmentInPlace(file: seq<byte>, k: nat, segmentSize: nat)
    requires segmentSize > 0 && 1 <= k <= NumSegments(|file|, segmentSize)
    requires Start(k, segmentSize) < SEEK_LIMIT
    ensures var at := Start(k, segmentSize);
      && at + SegmentLength(|file|, k, segmentSize) <= |file|
      && Segment(file, k, segmentSize) == file[at..at + SegmentLength(|file|, k, segmentSize)]
  {
    hide NumSegments, Start;
    SegmentRange(|file|, segmentSize, k);
  }

  /** The last segment starts where a 32-bit position reaches. */
  predicate Reachable(fileSize: nat, segmentSize: nat)
    requires segmentSize > 0
  {
    var n := NumSegments(fileSize, segmentSize);
    n == 0 || Start(n, segmentSize) < SEEK_LIMIT
  }

  /** All segments put together are the file. */
  lemma SegmentsLossless(file: seq<byte>, segmentSize: nat)
    requires segmentSize > 0 && Reachable(|file|, segmentSize)
    ensures SegmentsJoined(file, segmentSize, NumSegments(|file|, segmentSize)) == file
  {
    hide NumSegments, Start, Covered;
    JoinedIsPrefix(file, segmentSize, NumSegments(|file|, segmentSize));
    CoveredAll(|file|, segmentSize);
    assert file[..|file|] == file;
  }

  /** A file of zeros with a one at `p`. */
  function Marked(len: nat, p: nat): (f: seq<byte>)
    ensures |f| == len
    ensures forall i :: 0 <= i < len ==> f[i] == if i == p then 1 else 0
  {
    seq(len, i => if i == p then 1 else 0)
  }

  /** Beyond that, a file is put together wrongly. */
  lemma SegmentsLossy(fileSize: nat, segmentSize: nat)
    requires segmentSize > 0 && !Reachable(fileSize, segmentSize)
    ensures var n := NumSegments(fileSize, segmentSize);
      var file := Marked(fileSize, Start(n, segmentSize));
      SegmentsJoined(file, segmentSize, n) != file
  {
    hide NumSegments, Start, Covered, Segment, SegmentLength, Marked;
    var n := NumSegments(fileSize, segmentSize);
    var p := Start(n, segmentSize);
    var file := Marked(fileSize, p);
    SegmentRange(fileSize, segmentSize, n);
    JoinedLength(file, segmentSize, n - 1);
    CoveredStep(fileSize, segmentSize, n);
    FirstByteRead(file, n, segmentSize);
    assert SegmentsJoined(file, segmentSize, n)[p] == 0;
  }

  /** For a length and a segment size, cutting is lossless for every file exactly when the last
      segment starts below 2^32. */
  lemma LosslessIff(fileSize: nat, segmentSize: nat)
    requires segmentSize > 0
    ensures Reachable(fileSize, segmentSize)
      <==> forall file: seq<byte> :: |file| == fileSize ==>
             SegmentsJoined(file, segmentSize, NumSegments(fileSize, segmentSize)) == file
  {
    hide NumSegments, Reachable, Start;
    if Reachable(fileSize, segmentSize) {
      forall file: seq<byte> | |file| == fileSize
        ensures SegmentsJoined(file, segmentSize, NumSegments(fileSize, segmentSize)) == file
      {
        SegmentsLossless(file, segmentSize);
      }
    } else {
      SegmentsLossy(fileSize, segmentSize);
    }
  }
}
