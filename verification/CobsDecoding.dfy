/** What the decoder computes, and how it relates to the encoder.

    `cobs_decode` is handed a buffer and a length and follows length bytes; it writes a zero
    after a block only if the buffer goes on. Its result therefore depends on whether the
    delimiter was counted in the length. `Decode` is that computation on any buffer it can
    walk without leaving it, and the lemmas say what it gives on frames, with and without the
    delimiter, for every input of the encoder.
 */
module CobsDecoding {
  import opened Bytes
  import opened CobsBlocks

  /** How far the decoder moves on a length byte; a zero is passed over like an empty block. */
  function Stride(code: byte): nat {
    if code == 0 then 1 else code
  }

  /** The decoder stays inside `s`. */
  predicate Walkable(s: seq<byte>)
    decreases |s|
  {
    s == [] || (Stride(s[0]) <= |s| && Walkable(s[Stride(s[0])..]))
  }

  function Decode(s: seq<byte>): (x: seq<byte>)
    requires Walkable(s)
    decreases |s|
  {
    if s == [] then []
    else
      var n := Stride(s[0]);
      s[1..n] + (if s[0] < 0xFF && n < |s| then [0] else []) + Decode(s[n..])
  }

  /** What the decoder makes of a length byte and any bytes behind it, zeros among them or not, if
      it can walk the rest. */
  lemma DecodeCounted(d: seq<byte>, s: seq<byte>)
    requires |d| <= FULL && Walkable(s)
    ensures Walkable([|d| + 1] + d + s)
    ensures Decode([|d| + 1] + d + s) == d + (if s == [] || |d| == FULL then [] else [0]) + Decode(s)
  {
    var t := [|d| + 1] + d + s;
    assert t[t[0]..] == s && t[1..t[0]] == d;
  }

  /** A zero in the place of a length byte is taken like a one. */
  lemma DecodeZeroLength(s: seq<byte>)
    requires Walkable(s)
    ensures Walkable([0] + s) && Walkable([1] + s)
    ensures Decode([0] + s) == Decode([1] + s)
  {
    var z, o := [0] + s, [1] + s;
    assert z[1..] == s && o[1..] == s && z[1..1] == o[1..1];
  }

  lemma DecodeBlock(d: Block, s: seq<byte>)
    requires ValidBlock(d) && Walkable(s)
    ensures Walkable(WireBlock(d) + s)
    ensures Decode(WireBlock(d) + s) == d + (if s == [] then [] else Closing(d)) + Decode(s)
  {
    hide Decode, Walkable;
    DecodeCounted(d, s);
  }

  /** With the delimiter counted, the decoder returns what the blocks stand for. */
  lemma {:induction false} DecodeDelimited(bs: seq<Block>)
    requires ValidBlocks(bs)
    ensures Walkable(Wire(bs) + [0])
    ensures Decode(Wire(bs) + [0]) == Meaning(bs)
  {
    if bs == [] {
      var s: seq<byte> := [0];
      assert Wire(bs) + [0] == s && s[1..] == [];
    } else {
      DecodeDelimited(bs[1..]);
      DecodeBlock(bs[0], Wire(bs[1..]) + [0]);
      hide WireBlock, Decode;
      assert Wire(bs) + [0] == WireBlock(bs[0]) + (Wire(bs[1..]) + [0]);
    }
  }

  /** Without the delimiter, the zero that closes the last block is missing. */
  lemma {:induction false} DecodeUndelimited(bs: seq<Block>)
    requires ValidBlocks(bs)
    ensures Walkable(Wire(bs))
    ensures bs != [] ==> Decode(Wire(bs)) + Closing(bs[|bs| - 1]) == Meaning(bs)
  {
    hide Decode, Walkable;
    if bs == [] {
      NothingToWalk();
    } else {
      var d, rest := bs[0], bs[1..];
      DecodeUndelimited(rest);
      DecodeBlock(d, Wire(rest));
      if rest == [] {
        OneBlock(d);
        assert bs == [d];
      } else {
        var last := Closing(bs[|bs| - 1]);
        assert rest[|rest| - 1] == bs[|bs| - 1];
        assert |Wire(rest)| >= |WireBlock(rest[0])| > 0;
        assert d + Closing(d) + Decode(Wire(rest)) + last == d + Closing(d) + (Decode(Wire(rest)) + last);
      }
    }
  }

  lemma NothingToWalk()
    ensures Walkable([]) && Wire([]) == []
  {
  }

  lemma OneBlock(d: Block)
    requires ValidBlock(d)
    ensures Wire([d]) == WireBlock(d) && Meaning([d]) == d + Closing(d)
    ensures Walkable(Wire([d])) && Decode(Wire([d])) == d
  {
    var w := WireBlock(d);
    assert w + [] == w;
    DecodeBlock(d, []);
  }

  // ----- encoder and decoder

  lemma EncodeDecode(x: seq<byte>)
    ensures Walkable(Encode(x))
    ensures Decode(Encode(x)) == if EndsOpen(x) then x + [0] else x
  {
    DecodeDelimited(Split(x));
    MeaningOfSplit(x);
  }

  lemma LastBlockOfSplit(x: seq<byte>)
    requires x != []
    ensures Split(x) != []
    ensures var bs := Split(x); |bs[|bs| - 1]| < FULL <==> x[|x| - 1] == 0 || EndsOpen(x)
  {
    MeaningOfSplit(x);
    var bs := Split(x);
    LastByteOfMeaning(bs);
  }

  lemma {:induction false} LastByteOfMeaning(bs: seq<Block>)
    requires ValidBlocks(bs) && bs != []
    ensures |Meaning(bs)| > 0
    ensures Meaning(bs)[|Meaning(bs)| - 1] == 0 <==> |bs[|bs| - 1]| < FULL
  {
    if |bs| == 1 {
      assert bs[1..] == [];
      assert Meaning(bs) == bs[0] + Closing(bs[0]);
    } else {
      LastByteOfMeaning(bs[1..]);
      assert bs[1..][|bs| - 2] == bs[|bs| - 1];
    }
  }

  /** The frame of `x` decoded without its delimiter: a final zero of `x` is lost. */
  lemma EncodeDecodeUndelimited(x: seq<byte>)
    ensures Walkable(Wire(Split(x)))
    ensures Decode(Wire(Split(x))) == if x != [] && x[|x| - 1] == 0 then x[..|x| - 1] else x
  {
    var bs := Split(x);
    DecodeUndelimited(bs);
    MeaningOfSplit(x);
    if x != [] {
      LastBlockOfSplit(x);
      hide Split, Wire, Decode, Meaning;
      WithoutClosing(Decode(Wire(bs)), bs[|bs| - 1], x);
    }
  }

  lemma WithoutClosing(d: seq<byte>, last: Block, x: seq<byte>)
    requires x != [] && d + Closing(last) == Padded(x)
    requires |last| < FULL <==> x[|x| - 1] == 0 || EndsOpen(x)
    ensures d == if x[|x| - 1] == 0 then x[..|x| - 1] else x
  {
    if x[|x| - 1] == 0 {
      assert TrailingRun(x) == 0;
    }
    assert d == Padded(x)[..|d|];
  }

  /** Neither way of calling the decoder inverts the encoder on every input; each does exactly
      on the inputs named here. */
  lemma DecodeInvertsEncodeIff(x: seq<byte>)
    ensures Walkable(Encode(x)) && Walkable(Wire(Split(x)))
    ensures Decode(Encode(x)) == x <==> !EndsOpen(x)
    ensures Decode(Wire(Split(x))) == x <==> x == [] || x[|x| - 1] != 0
  {
    EncodeDecode(x);
    EncodeDecodeUndelimited(x);
  }

  /** Every accepted frame is what the encoder makes of its decoding. */
  lemma DecodeEncode(w: seq<byte>)
    requires Accepted(w)
    ensures Walkable(w + [0])
    ensures Encode(Decode(w + [0])) == w + [0]
  {
    var bs := Parse(w);
    WireOfParse(w);
    DecodeDelimited(bs);
    SplitOfMeaning(bs);
  }

  /** Two inputs share a frame only if they differ by the zero that closes an open end. */
  lemma EncodeCollisions(x: seq<byte>, y: seq<byte>)
    ensures Encode(x) == Encode(y)
      <==> x == y || (EndsOpen(x) && y == x + [0]) || (EndsOpen(y) && x == y + [0])
  {
    MeaningOfSplit(x);
    MeaningOfSplit(y);
    EncodeDecode(x);
    EncodeDecode(y);
    if EndsOpen(x) {
      ClosedByZero(x);
    }
    if EndsOpen(y) {
      ClosedByZero(y);
    }
    if Padded(x) == Padded(y) {
      SplitOfMeaning(Split(x));
      SplitOfMeaning(Split(y));
      assert Encode(x) == Encode(y);
      assert EndsOpen(x) && EndsOpen(y) ==> x == Padded(x)[..|Padded(x)| - 1] == y;
    }
  }

  lemma ClosedByZero(x: seq<byte>)
    ensures !EndsOpen(x + [0])
  {
    TrailingRunAfterZero(x, []);
    assert x + [0] + [] == x + [0];
  }

  /** On inputs that end in zero, as every serialised message does, nothing is lost. */
  lemma EncodeInjectiveOnZeroEnded(x: seq<byte>, y: seq<byte>)
    requires x != [] && x[|x| - 1] == 0
    requires y != [] && y[|y| - 1] == 0
    ensures Walkable(Encode(x)) && Decode(Encode(x)) == x
    ensures Encode(x) == Encode(y) ==> x == y
  {
    assert TrailingRun(x) == 0 && TrailingRun(y) == 0;
    hide Encode, Decode, Walkable, TrailingRun;
    EncodeDecode(x);
    EncodeDecode(y);
  }

  // ----- frames the verifier accepts

  /** On an accepted frame the decoder stays inside it, with or without the delimiter, and the
      two results differ by the closing zero of the last block. Both fit the frame. */
  lemma DecodeAccepted(w: seq<byte>)
    requires Accepted(w) && w != []
    ensures Walkable(w) && Walkable(w + [0])
    ensures Decode(w + [0]) == Meaning(Parse(w))
    ensures var bs := Parse(w);
      bs != [] && Decode(w + [0]) == Decode(w) + Closing(bs[|bs| - 1])
    ensures |Decode(w)| <= |Decode(w + [0])| <= |w|
    ensures |Decode(w + [0])| > 0
  {
    var bs := Parse(w);
    WireOfParse(w);
    DecodeDelimited(bs);
    DecodeUndelimited(bs);
    MeaningFits(bs);
  }

  /** The encoder's output without its delimiter is accepted, and it has no other zero. */
  lemma EncodeAccepted(x: seq<byte>)
    ensures Accepted(Wire(Split(x)))
    ensures Parse(Wire(Split(x))) == Split(x)
    ensures |Encode(x)| > 0 && Encode(x)[|Encode(x)| - 1] == 0
    ensures ZeroFree(Encode(x)[..|Encode(x)| - 1])
  {
    ParseOfWire(Split(x));
    assert Encode(x)[..|Encode(x)| - 1] == Wire(Split(x));
  }
}
