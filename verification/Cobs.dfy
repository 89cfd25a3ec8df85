/** The COBS routines (cobs.c), which work on byte buffers in place. */
module Cobs {
  import opened Bytes
  import opened CobsBlocks
  import opened CobsDecoding
  import opened CobsLengths

  const SPECIAL_CHAR: byte := 0x00

  /** `s` with `part` written at its start. */
  function Overwritten(s: seq<byte>, part: seq<byte>): seq<byte>
    requires |part| <= |s|
  {
    part + s[|part|..]
  }

  /** State of the output while encoding: the closed blocks, one place kept for the length byte
      of the open block, the open block, and what was there before. */
  ghost predicate Encoding(s: seq<byte>, was: seq<byte>, done: seq<Block>, open: Block) {
    && |s| == |was|
    && ValidBlocks(done) && ZeroFree(open)
    && var code := |Wire(done)|;
    && var out := code + 1 + |open|;
    && out <= |s|
    && s[..code] == Wire(done)
    && s[code + 1..out] == open
    && s[out..] == was[out..]
  }

  lemma EncodingStart(s: seq<byte>)
    requires |s| > 0
    ensures Encoding(s, s, [], [])
  {
  }

  lemma AppendByte(s: seq<byte>, was: seq<byte>, done: seq<Block>, open: Block, b: byte)
    requires Encoding(s, was, done, open)
    requires b != 0 && |Wire(done)| + 1 + |open| < |s|
    ensures Encoding(s[|Wire(done)| + 1 + |open| := b], was, done, open + [b])
  {
    var code := |Wire(done)|;
    var out := code + 1 + |open|;
    var t := s[out := b];
    assert t[..code] == s[..code];
    assert t[code + 1..out + 1] == s[code + 1..out] + [b];
    assert t[out + 1..] == s[out..][1..] == was[out + 1..];
  }

  lemma CloseBlock(s: seq<byte>, was: seq<byte>, done: seq<Block>, open: Block)
    requires Encoding(s, was, done, open)
    requires |open| <= FULL && |Wire(done)| + 1 + |open| < |s|
    ensures Wire(done + [open]) == Wire(done) + WireBlock(open)
    ensures Encoding(s[|Wire(done)| := |open| + 1], was, done + [open], [])
  {
    hide Wire;
    WireAppend(done, open);
    MarkerPlaced(s, was, Wire(done), open, |open| + 1);
  }

  /** The place kept for a length byte, filled in. */
  lemma MarkerPlaced(s: seq<byte>, was: seq<byte>, front: seq<byte>, open: Block, marker: byte)
    requires var code, out := |front|, |front| + 1 + |open|;
      && out < |s| == |was|
      && s[..code] == front && s[code + 1..out] == open && s[out..] == was[out..]
    ensures var t, out := s[|front| := marker], |front| + 1 + |open|;
      && t[..out] == front + ([marker] + open)
      && t[out + 1..] == was[out + 1..]
  {
    var code, out := |front|, |front| + 1 + |open|;
    var t := s[code := marker];
    assert t[..code] == front && t[code + 1..out] == open;
    assert t[..out] == t[..code] + [t[code]] + t[code + 1..out];
    assert t[out + 1..] == s[out..][1..];
    assert was[out + 1..] == was[out..][1..];
  }

  lemma Delimit(s: seq<byte>, was: seq<byte>, done: seq<Block>)
    requires Encoding(s, was, done, [])
    ensures s[|Wire(done)| := SPECIAL_CHAR] == Overwritten(was, Wire(done) + [0])
  {
    var code := |Wire(done)|;
    var t := s[code := SPECIAL_CHAR];
    assert t == s[..code] + [0] + s[code + 1..];
  }

  /** The blocks closed so far and what the rest of the input makes of the open one. */
  ghost predicate Splitting(src: seq<byte>, i: nat, done: seq<Block>, open: Block) {
    && i <= |src|
    && ValidBlocks(done) && ZeroFree(open) && |open| < FULL
    && done + SplitFrom(open, src[i..]) == Split(src)
  }

  lemma SplittingStep(src: seq<byte>, i: nat, done: seq<Block>, open: Block)
    requires i < |src| && Splitting(src, i, done, open)
    ensures src[i] == 0 ==> Splitting(src, i + 1, done + [open], [])
    ensures src[i] != 0 ==>
      if |open| + 1 == FULL then Splitting(src, i + 1, done + [open + [src[i]]], [])
      else Splitting(src, i + 1, done, open + [src[i]])
  {
    assert src[i..][1..] == src[i + 1..];
    assert forall d: Block, bs: seq<Block> :: done + ([d] + bs) == done + [d] + bs;
  }

  lemma SplittingEnd(src: seq<byte>, done: seq<Block>, open: Block)
    requires Splitting(src, |src|, done, open)
    ensures Split(src) == if open == [] then done else done + [open]
    ensures |Wire(Split(src))| == |Wire(done)| + (if open == [] then 0 else |open| + 1)
  {
    assert src[|src|..] == [];
    if open == [] {
      assert done + [] == done;
    } else {
      WireAppend(done, open);
    }
  }

  /** The PlaceMarker macro's store: fill in the length byte of the open block. */
  method PlaceMarker(dst: array<byte>, code: nat, marker: byte,
                     ghost was: seq<byte>, ghost done: seq<Block>, ghost open: Block)
    requires Encoding(dst[..], was, done, open)
    requires |open| <= FULL && code + 1 + |open| < dst.Length
    requires code == |Wire(done)| && marker == |open| + 1
    modifies dst
    ensures Encoding(dst[..], was, done + [open], [])
    ensures |Wire(done + [open])| == code + marker
  {
    ghost var s := dst[..];
    CloseBlock(s, was, done, open);
    dst[code] := marker;
    assert dst[..] == s[code := marker];
  }

  method StoreByte(dst: array<byte>, out: nat, b: byte,
                   ghost was: seq<byte>, ghost done: seq<Block>, ghost open: Block)
    requires Encoding(dst[..], was, done, open)
    requires b != 0 && out == |Wire(done)| + 1 + |open| < dst.Length
    modifies dst
    ensures Encoding(dst[..], was, done, open + [b])
  {
    ghost var s := dst[..];
    AppendByte(s, was, done, open, b);
    dst[out] := b;
    assert dst[..] == s[out := b];
  }

  /** cobs_encode: `code` is where the length byte of the open block will go, `out` is the next
      free place. */
  method CobsEncode(src: seq<byte>, dst: array<byte>)
    requires |Encode(src)| <= dst.Length
    modifies dst
    ensures dst[..] == Overwritten(old(dst[..]), Encode(src))
  {
    var code: nat, out: nat, marker := 0, 1, 0x01;
    var i := 0;
    ghost var was := dst[..];
    ghost var done: seq<Block>, open: Block := [], [];
    assert src[0..] == src && [] + Split(src) == Split(src);
    hide Encoding, SplitFrom;
    assert Encoding(dst[..], was, done, open) by { EncodingStart(was); }
    while i < |src|
      invariant 0 <= i <= |src|
      invariant Splitting(src, i, done, open)
      invariant Encoding(dst[..], was, done, open)
      invariant marker == |open| + 1 && code == |Wire(done)| && out == code + marker
    {
      RoomLeft(done, open, src[i..], Split(src));
      SplittingStep(src, i, done, open);
      if src[i] == SPECIAL_CHAR {
        PlaceMarker(dst, code, marker, was, done, open);
        code, out, marker := out, out + 1, 0x01;
        done, open := done + [open], [];
      } else {
        StoreByte(dst, out, src[i], was, done, open);
        out, marker := out + 1, marker + 1;
        open := open + [src[i]];
        if marker == 0xFF {
          PlaceMarker(dst, code, marker, was, done, open);
          code, out, marker := out, out + 1, 0x01;
          done, open := done + [open], [];
        }
      }
      i := i + 1;
    }
    SplittingEnd(src, done, open);
    if marker != 0x01 {
      PlaceMarker(dst, code, marker, was, done, open);
      code := out;
      done := done + [open];
    }
    ghost var s := dst[..];
    Delimit(s, was, done);
    dst[code] := SPECIAL_CHAR;
    assert dst[..] == s[code := SPECIAL_CHAR];
  }

  /** What is left to encode still needs room for its length byte, its bytes and the delimiter. */
  lemma RoomLeft(done: seq<Block>, open: Block, x: seq<byte>, all: seq<Block>)
    requires ValidBlocks(done) && ZeroFree(open) && |open| < FULL
    requires done + SplitFrom(open, x) == all
    requires x != []
    ensures ValidBlocks(all)
    ensures |Wire(all)| >= |Wire(done)| + |open| + 1
    ensures x[0] != 0 ==> |Wire(all)| >= |Wire(done)| + |open| + 2
  {
    WireConcat(done, SplitFrom(open, x));
    FirstBlockOfSplitFrom(open, x);
  }

  lemma {:induction false} FirstBlockOfSplitFrom(open: Block, x: seq<byte>)
    requires ZeroFree(open) && |open| < FULL
    ensures open != [] ==> |Wire(SplitFrom(open, x))| >= |open| + 1
    ensures x != [] ==> |Wire(SplitFrom(open, x))| >= |open| + (if x[0] == 0 then 1 else 2)
    decreases |x|
  {
    if x != [] && x[0] != 0 && |open| + 1 < FULL {
      FirstBlockOfSplitFrom(open + [x[0]], x[1..]);
    }
  }

  lemma {:induction false} WireConcat(a: seq<Block>, b: seq<Block>)
    requires ValidBlocks(a) && ValidBlocks(b)
    ensures ValidBlocks(a + b)
    ensures Wire(a + b) == Wire(a) + Wire(b)
  {
    if a == [] {
      assert a + b == b;
    } else {
      WireConcat(a[1..], b);
      WireCons(a[0], a[1..] + b);
      assert a + b == [a[0]] + (a[1..] + b);
      var first := WireBlock(a[0]);
      hide WireBlock;
      assert first + (Wire(a[1..]) + Wire(b)) == first + Wire(a[1..]) + Wire(b);
    }
  }

  /** The output after `written` has been produced into a buffer that held `was`. */
  ghost predicate Decoding(s: seq<byte>, was: seq<byte>, written: seq<byte>) {
    |written| <= |was| && s == Overwritten(was, written)
  }

  /** `*dst++ = *src++` for `n` bytes: the inner loop of cobs_decode. */
  method CopyBytes(src: seq<byte>, at: nat, n: nat, dst: array<byte>, out: nat,
                   ghost was: seq<byte>, ghost written: seq<byte>)
    requires at + n <= |src| && out + n <= dst.Length
    requires out == |written| && Decoding(dst[..], was, written)
    modifies dst
    ensures Decoding(dst[..], was, written + src[at..at + n])
  {
    var i := 0;
    assert written + src[at..at] == written;
    while i < n
      invariant 0 <= i <= n
      invariant Decoding(dst[..], was, written + src[at..at + i])
    {
      assert src[at..at + i] + [src[at + i]] == src[at..at + i + 1];
      ghost var s := dst[..];
      dst[out + i] := src[at + i];
      assert dst[..] == s[out + i := src[at + i]];
      i := i + 1;
    }
  }

  method StoreZero(dst: array<byte>, out: nat, ghost was: seq<byte>, ghost written: seq<byte>)
    requires out < dst.Length
    requires out == |written| && Decoding(dst[..], was, written)
    modifies dst
    ensures Decoding(dst[..], was, written + [0])
  {
    ghost var s := dst[..];
    dst[out] := SPECIAL_CHAR;
    assert dst[..] == s[out := SPECIAL_CHAR];
  }

  /** `written` is the decoding of `src` up to the length byte at `at`. */
  ghost predicate DecodedTo(src: seq<byte>, at: nat, written: seq<byte>)
    requires Walkable(src)
  {
    at <= |src| && Walkable(src[at..]) && written + Decode(src[at..]) == Decode(src)
  }

  function ClosingAt(src: seq<byte>, code: byte, next: nat): seq<byte> {
    if code < 0xFF && next < |src| then [0] else []
  }

  /** The block at `at` contributes its bytes and, if it is closed by a zero, that zero. */
  lemma DecodeStep(src: seq<byte>, at: nat, n: nat, written: seq<byte>)
    requires at < |src| && Walkable(src) && DecodedTo(src, at, written)
    requires n == if src[at] == 0 then 0 else src[at] - 1
    ensures at + 1 + n <= |src|
    ensures var more := src[at + 1..at + 1 + n] + ClosingAt(src, src[at], at + 1 + n);
      && DecodedTo(src, at + 1 + n, written + more)
      && |written| + |more| <= |Decode(src)|
  {
    var rest, k := src[at..], n + 1;
    assert k == Stride(rest[0]);
    assert rest[1..k] == src[at + 1..at + k];
    assert rest[k..] == src[at + k..];
    var more := src[at + 1..at + k] + ClosingAt(src, src[at], at + k);
    assert Decode(rest) == more + Decode(src[at + k..]);
    assert written + (more + Decode(src[at + k..])) == written + more + Decode(src[at + k..]);
  }

  /** One round of cobs_decode: a length byte, its bytes, and the zero it stands for. */
  method DecodeBlockAt(src: seq<byte>, at: nat, dst: array<byte>, out: nat,
                       ghost was: seq<byte>, ghost written: seq<byte>)
    returns (next: nat, end: nat, ghost produced: seq<byte>)
    requires at < |src| && Walkable(src) && DecodedTo(src, at, written)
    requires |Decode(src)| <= dst.Length
    requires out == |written| && Decoding(dst[..], was, written)
    modifies dst
    ensures at < next && DecodedTo(src, next, produced)
    ensures end == |produced| && Decoding(dst[..], was, produced)
  {
    hide Decode, Walkable, Decoding, DecodedTo;
    var marker := src[at];
    var n: nat := if marker == 0 then 0 else marker - 1;
    DecodeStep(src, at, n, written);
    ghost var data, closing := src[at + 1..at + 1 + n], ClosingAt(src, marker, at + 1 + n);
    produced := written + (data + closing);
    CopyBytes(src, at + 1, n, dst, out, was, written);
    next, end := at + 1 + n, out + n;
    if marker < 0xFF && next < |src| {
      StoreZero(dst, end, was, written + data);
      end := end + 1;
      assert written + data + [0] == produced;
    } else {
      assert written + data == produced;
    }
  }

  /** cobs_decode. */
  method CobsDecode(src: seq<byte>, dst: array<byte>)
    requires Walkable(src) && |Decode(src)| <= dst.Length
    modifies dst
    ensures dst[..] == Overwritten(old(dst[..]), Decode(src))
  {
    var at: nat, out: nat := 0, 0;
    ghost var was := dst[..];
    ghost var written: seq<byte> := [];
    assert src[0..] == src && [] + Decode(src) == Decode(src);
    while at < |src|
      invariant DecodedTo(src, at, written)
      invariant out == |written|
      invariant Decoding(dst[..], was, written)
    {
      at, out, written := DecodeBlockAt(src, at, dst, out, was, written);
    }
    DecodedAll(src, at, written);
  }

  lemma DecodedAll(src: seq<byte>, at: nat, written: seq<byte>)
    requires Walkable(src) && DecodedTo(src, at, written) && at >= |src|
    ensures written == Decode(src)
  {
    assert src[at..] == [];
  }

  /** alt_cobs_verify: first that the length bytes end at the end, then that there is no zero. */
  method AltCobsVerify(src: seq<byte>) returns (ok: bool)
    ensures ok == Accepted(src)
  {
    var cur := 0;
    assert src[0..] == src;
    while cur < |src|
      invariant 0 <= cur
      invariant cur <= |src| ==> Splits(src) == Splits(src[cur..])
      invariant cur > |src| ==> !Splits(src)
    {
      var substringlen := src[cur];
      if substringlen == 0 {
        return false;
      }
      assert cur + substringlen <= |src| ==> src[cur..][substringlen..] == src[cur + substringlen..];
      cur := cur + substringlen;
    }
    if cur != |src| {
      return false;
    }
    cur := 0;
    while cur < |src|
      invariant 0 <= cur <= |src|
      invariant ZeroFree(src[..cur])
    {
      if src[cur] == SPECIAL_CHAR {
        return false;
      }
      cur := cur + 1;
    }
    assert src[..cur] == src;
    return true;
  }

  /** cobs_verify: one pass with a countdown to the next length byte. */
  method CobsVerify(src: seq<byte>) returns (ok: bool)
    ensures ok == Accepted(src)
  {
    var marker, at := 0x00, 0;
    assert src[0..] == src;
    while at < |src|
      invariant 0 <= at <= |src| && 0 <= marker <= 0xFF
      invariant ZeroFree(src[..at])
      invariant Splits(src) == (at + marker <= |src| && Splits(src[at + marker..]))
    {
      if src[at] == SPECIAL_CHAR {
        return false;
      }
      if marker == 0x00 {
        marker := src[at];
        assert at + marker <= |src| ==> src[at..][marker..] == src[at + marker..];
      }
      at := at + 1;
      marker := marker - 1;
    }
    assert src[..at] == src;
    if marker != 0x00 {
      return false;
    }
    return true;
  }

  /** cobs_encoded_length_from_encoded: the delimiter has to be there. */
  method EncodedLengthFromEncoded(src: seq<byte>) returns (len: nat)
    requires exists i :: 0 <= i < |src| && src[i] == SPECIAL_CHAR
    ensures 0 < len <= |src|
    ensures ZeroFree(src[..len - 1]) && src[len - 1] == SPECIAL_CHAR
  {
    var i := 0;
    while src[i] != SPECIAL_CHAR
      invariant 0 <= i < |src|
      invariant ZeroFree(src[..i])
      decreases |src| - i
    {
      i := i + 1;
    }
    len := i + 1;
  }

  /** cobs_encoded_length_from_decoded. */
  method EncodedLengthFromDecoded(src: seq<byte>) returns (sum: nat)
    ensures sum == PredictedLength(src)
  {
    sum := |src| + 2;
    var run, i := 0, 0;
    assert src[0..] == src;
    while i < |src|
      invariant 0 <= i <= |src| && 0 <= run < FULL
      invariant sum + FullRuns(run, src[i..]) == PredictedLength(src)
    {
      assert src[i..][1..] == src[i + 1..];
      run := if src[i] == SPECIAL_CHAR then 0 else run + 1;
      if run >= 254 {
        sum, run := sum + 1, 0;
      }
      i := i + 1;
    }
  }

  /** The bytes that the frame from `at` on stands for, counted block by block. */
  lemma MeaningLengthStep(w: seq<byte>, at: nat)
    requires at < |w| && Accepted(w[at..])
    ensures at + w[at] <= |w| && Accepted(w[at + w[at]..])
    ensures |Meaning(Parse(w[at..]))|
         == (if w[at] == 0xFF then 0xFE else w[at]) + |Meaning(Parse(w[at + w[at]..]))|
  {
    var rest, n := w[at..], w[at];
    assert rest[0] == n && rest[n..] == w[at + n..];
    MeaningCons(rest[1..n], Parse(rest[n..]));
  }

  /** cobs_decoded_length_from_encoded, on a buffer that holds the frame `src[..end]` and its
      delimiter: the number of bytes the frame stands for. */
  method DecodedLengthFromEncoded(src: seq<byte>, ghost end: nat) returns (sum: nat)
    requires end < |src| && src[end] == SPECIAL_CHAR && Accepted(src[..end])
    ensures sum == |Meaning(Parse(src[..end]))|
  {
    hide Meaning, Parse, Splits;
    var stop := 0;
    ghost var w := src[..end];
    assert forall i :: 0 <= i < end ==> src[i] == w[i];
    while src[stop] != SPECIAL_CHAR
      invariant 0 <= stop <= end
      decreases end - stop
    {
      stop := stop + 1;
    }
    assert stop == end;
    sum := 0;
    var at := 0;
    assert w[0..] == w;
    while at < stop
      invariant 0 <= at <= stop
      invariant Accepted(w[at..])
      invariant sum + |Meaning(Parse(w[at..]))| == |Meaning(Parse(w))|
    {
      MeaningLengthStep(w, at);
      var substringlen := src[at];
      if substringlen == 0xFF {
        sum := sum + 0xFE;
      } else {
        sum := sum + substringlen;
      }
      at := at + substringlen;
    }
    NothingLeft(w);
  }

  lemma NothingLeft(w: seq<byte>)
    ensures Accepted(w[|w|..]) && |Meaning(Parse(w[|w|..]))| == 0
  {
    assert w[|w|..] == [];
  }
}
