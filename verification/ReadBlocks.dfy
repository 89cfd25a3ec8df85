/** The client's reader (read_blocks.c), over the bytes of a stream up to end of file. */
module ReadBlocks {
  import opened Bytes
  import opened ByteOrder
  import opened CobsBlocks
  import opened CobsDecoding
  import opened Messages
  import opened MessageLaws
  import opened HandleErrors
  import opened Frames
  import Cobs
  import MessageCodec

  const BLOCK_INITIAL_SIZE: nat := 8192

  /** Every frame that the verifier accepts is found in the part of the buffer that was cleared,
      so that a zero follows it. The reader relies on this. */
  predicate FramesFit(s: seq<byte>)
    decreases |s|
  {
    var k := FirstZero(s);
    k == |s| || ((Accepted(s[..k]) ==> k < BLOCK_INITIAL_SIZE) && FramesFit(s[k + 1..]))
  }

  /** The undelimited decode leaves the last byte as it was in the buffer; the verdict and the
      delivery do not depend on it. */
  lemma JudgeIgnoresUnwritten(w: seq<byte>, buf: seq<byte>)
    requires w != [] && Accepted(w) && Walkable(w)
    requires |buf| == |Meaning(Parse(w))| >= |Decode(w)| && buf[..|Decode(w)|] == Decode(w)
    ensures JudgeBytes(buf) == Judge(w)
  {
    hide JudgeBytes, Decode, Meaning, Parse, Walkable, Splits;
    DecodeAccepted(w);
    var x := Meaning(Parse(w));
    if |Decode(w)| == |x| {
      assert buf[..|x|] == buf;
      assert Decode(w) == Decode(w + [0]);
    } else {
      assert x[..|x| - 1] == Decode(w);
      assert buf[..|buf| - 1] == Decode(w);
      LastByteJudgedSame(x, buf);
    }
  }

  lemma LastByteJudgedSame(x: seq<byte>, y: seq<byte>)
    requires |x| == |y| > 0 && x[..|x| - 1] == y[..|y| - 1]
    ensures JudgeBytes(x) == JudgeBytes(y)
  {
    hide HeaderAt, MessageIn, Parseable, Validates;
    LastByteIrrelevant(x, y);
  }

  /** What follows the delimiter: verify, decode into an uninitialised buffer, parse, validate. */
  method JudgeFrame(e: Endianness, buffer: array<byte>, bindex: nat) returns (delivered: seq<Delivery>)
    requires bindex < buffer.Length
    requires Accepted(buffer[..bindex]) ==> buffer[bindex] == 0
    ensures delivered == Judge(buffer[..bindex])
  {
    hide Meaning, Parse, Splits, Decode, Walkable, HeaderAt, MessageIn, Parseable;
    if bindex == 0 {
      return [];
    }
    var w := buffer[..bindex];
    var ok := Cobs.AltCobsVerify(w);
    if !ok {
      return [];
    }
    DecodeAccepted(w);
    var decodeBuffer := new byte[bindex];
    Cobs.CobsDecode(w, decodeBuffer);
    assert buffer[..][..bindex] == w;
    var len := Cobs.DecodedLengthFromEncoded(buffer[..], bindex);
    var buf := decodeBuffer[..len];
    assert buf[..|Decode(w)|] == Decode(w);
    JudgeIgnoresUnwritten(w, buf);
    delivered := ParseAndValidate(e, buf);
  }

  method ParseAndValidate(e: Endianness, buf: seq<byte>) returns (delivered: seq<Delivery>)
    ensures delivered == JudgeBytes(buf)
  {
    hide HeaderAt;
    var m := MessageCodec.MsgFromBytes(e, buf);
    if m.Some? && Validates(m.value.head, |buf|) {
      return [Carried(m.value)];
    }
    return [];
  }

  /** A buffer enlarged as realloc does: the old bytes and then anything. */
  method Enlarged(buffer: array<byte>) returns (bigger: array<byte>)
    ensures fresh(bigger) && bigger.Length == buffer.Length + BLOCK_INITIAL_SIZE
    ensures bigger[..buffer.Length] == buffer[..]
  {
    bigger := new byte[buffer.Length + BLOCK_INITIAL_SIZE];
    forall i | 0 <= i < buffer.Length {
      bigger[i] := buffer[i];
    }
    assert bigger[..buffer.Length] == buffer[..];
  }

  /** The buffer holds the `bindex` bytes of the stream from `start` on, none of them a delimiter,
      and what was cleared and not written since is still clear. */
  ghost predicate Collecting(b: seq<byte>, stream: seq<byte>, start: nat, bindex: nat) {
    && start + bindex <= |stream| && bindex <= |b|
    && b[..bindex] == stream[start..start + bindex]
    && (forall i :: start <= i < start + bindex ==> stream[i] != 0)
    && (forall i :: bindex <= i < |b| && i < BLOCK_INITIAL_SIZE ==> b[i] == 0)
  }

  lemma CollectNothing(b: seq<byte>, stream: seq<byte>, start: nat)
    requires start <= |stream| && forall i :: 0 <= i < |b| ==> b[i] == 0
    ensures Collecting(b, stream, start, 0)
  {
  }

  lemma CollectByte(b: seq<byte>, stream: seq<byte>, start: nat, bindex: nat)
    requires Collecting(b, stream, start, bindex)
    requires bindex < |b| && start + bindex < |stream| && stream[start + bindex] != 0
    ensures Collecting(b[bindex := stream[start + bindex]], stream, start, bindex + 1)
  {
    var c := b[bindex := stream[start + bindex]];
    assert c[..bindex + 1] == b[..bindex] + [stream[start + bindex]];
    assert stream[start..start + bindex + 1] == stream[start..start + bindex] + [stream[start + bindex]];
  }

  /** Only a buffer that was filled up and is past the cleared part grows. */
  lemma CollectGrown(b: seq<byte>, c: seq<byte>, stream: seq<byte>, start: nat)
    requires Collecting(b, stream, start, |b|) && |b| >= BLOCK_INITIAL_SIZE && b <= c
    ensures Collecting(c, stream, start, |b|)
  {
    assert c[..|b|] == b == b[..|b|];
  }

  lemma CollectedChunk(b: seq<byte>, stream: seq<byte>, start: nat, bindex: nat)
    requires Collecting(b, stream, start, bindex) && bindex < |b|
    requires start + bindex == |stream| || stream[start + bindex] == 0
    ensures FirstZero(stream[start..]) == bindex && b[..bindex] == stream[start..start + bindex]
    ensures bindex < BLOCK_INITIAL_SIZE ==> b[bindex] == 0
  {
    FirstZeroIs(stream[start..], bindex);
  }

  /** The inner loop: bytes go to the buffer until a delimiter or the end of the stream. */
  method ReadChunk(stream: seq<byte>, start: nat) returns (pos: nat, buffer: array<byte>, bindex: nat, eof: bool)
    requires start <= |stream|
    ensures fresh(buffer) && bindex < buffer.Length
    ensures var k := FirstZero(stream[start..]);
      && bindex == k && buffer[..k] == stream[start..start + k]
      && eof == (start + k == |stream|)
      && pos == start + k + (if eof then 0 else 1)
    ensures bindex < BLOCK_INITIAL_SIZE ==> buffer[bindex] == 0
  {
    hide FirstZero, Collecting;
    buffer := new byte[BLOCK_INITIAL_SIZE](_ => 0);
    bindex, pos := 0, start;
    CollectNothing(buffer[..], stream, start);
    while pos < |stream| && stream[pos] != 0
      invariant start <= pos <= |stream| && pos == start + bindex
      invariant fresh(buffer) && BLOCK_INITIAL_SIZE <= buffer.Length && bindex < buffer.Length
      invariant Collecting(buffer[..], stream, start, bindex)
    {
      CollectByte(buffer[..], stream, start, bindex);
      ghost var b := buffer[..][bindex := stream[pos]];
      buffer[bindex] := stream[pos];
      assert buffer[..] == b;
      bindex, pos := bindex + 1, pos + 1;
      if bindex == buffer.Length {
        buffer := Enlarged(buffer);
        assert b <= buffer[..];
        CollectGrown(b, buffer[..], stream, start);
      }
    }
    CollectedChunk(buffer[..], stream, start, bindex);
    assert buffer[..bindex] == buffer[..][..bindex];
    eof := pos == |stream|;
    if !eof {
      pos := pos + 1;
    }
  }

  /** One chunk off the front of what is left of the stream. */
  lemma NextChunk(stream: seq<byte>, pos: nat, k: nat)
    requires pos <= |stream| && k == FirstZero(stream[pos..])
    ensures pos + k <= |stream|
    ensures pos + k == |stream| ==> Deliveries(stream[pos..]) == []
    ensures pos + k < |stream| ==>
      && Deliveries(stream[pos..])
         == Judge(stream[pos..pos + k]) + Deliveries(stream[pos + k + 1..])
      && (FramesFit(stream[pos..]) ==>
           && (Accepted(stream[pos..pos + k]) ==> k < BLOCK_INITIAL_SIZE)
           && FramesFit(stream[pos + k + 1..]))
  {
    hide Judge, Accepted;
    var rest := stream[pos..];
    if k < |rest| {
      assert rest[..k] == stream[pos..pos + k];
      assert rest[k + 1..] == stream[pos + k + 1..];
    }
  }

  /** One round of the outer loop: a chunk and what it delivers. */
  method ReadBlock(e: Endianness, stream: seq<byte>, pos: nat)
    returns (next: nat, delivered: seq<Delivery>, eof: bool)
    requires pos <= |stream| && FramesFit(stream[pos..])
    ensures pos <= next <= |stream|
    ensures eof ==> Deliveries(stream[pos..]) == [] == delivered
    ensures !eof ==>
      && pos < next && |delivered| <= 1 && FramesFit(stream[next..])
      && Deliveries(stream[pos..]) == delivered + Deliveries(stream[next..])
  {
    hide Judge, Accepted, Deliveries, FramesFit, FirstZero;
    NextChunk(stream, pos, FirstZero(stream[pos..]));
    var buffer, bindex;
    next, buffer, bindex, eof := ReadChunk(stream, pos);
    delivered := [];
    if !eof {
      delivered := JudgeFrame(e, buffer, bindex);
    }
  }

  /** read_blocks: the number of valid blocks, and what they carried. */
  method ReadBlocks(e: Endianness, stream: seq<byte>) returns (blockcount: nat, received: seq<Delivery>)
    requires FramesFit(stream)
    ensures received == Deliveries(stream)
    ensures blockcount == |Deliveries(stream)|
  {
    hide Deliveries, FramesFit;
    blockcount, received := 0, [];
    var pos: nat, eof := 0, false;
    assert stream[0..] == stream;
    while !eof
      invariant pos <= |stream| && (eof || FramesFit(stream[pos..]))
      invariant blockcount == |received|
      invariant received + (if eof then [] else Deliveries(stream[pos..])) == Deliveries(stream)
      decreases |stream| - pos, !eof
    {
      var delivered;
      pos, delivered, eof := ReadBlock(e, stream, pos);
      if delivered != [] {
        blockcount := blockcount + 1;
      }
      Regroup(received, delivered, if eof then [] else Deliveries(stream[pos..]));
      received := received + delivered;
    }
    assert received + [] == received;
  }

  lemma Regroup(a: seq<Delivery>, b: seq<Delivery>, c: seq<Delivery>)
    ensures a + (b + c) == a + b + c
  {
  }
}
