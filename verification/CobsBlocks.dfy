/** What COBS strings mean.

    A frame is a sequence of blocks. A block is up to 254 non-zero bytes; on the wire it is
    preceded by its length plus one, and it stands for its bytes followed by a zero, except
    that a block of exactly 254 bytes stands for its bytes alone. `Wire` and `Meaning` are
    these two readings. `Split` is the reading of a plain byte string as blocks that the
    encoder performs, and `Parse` recovers the blocks of a frame from its length bytes.
 */
module CobsBlocks {
  import opened Bytes

  const FULL: nat := 254

  type Block = seq<byte>

  predicate ValidBlock(d: Block) {
    |d| <= FULL && ZeroFree(d)
  }

  predicate ValidBlocks(bs: seq<Block>) {
    forall i :: 0 <= i < |bs| ==> ValidBlock(bs[i])
  }

  function WireBlock(d: Block): seq<byte>
    requires ValidBlock(d)
  {
    [|d| + 1] + d
  }

  function Wire(bs: seq<Block>): seq<byte>
    requires ValidBlocks(bs)
  {
    if bs == [] then [] else WireBlock(bs[0]) + Wire(bs[1..])
  }

  /** The zero that a block which is not full stands for. */
  function Closing(d: Block): seq<byte> {
    if |d| < FULL then [0] else []
  }

  function Meaning(bs: seq<Block>): seq<byte> {
    if bs == [] then [] else bs[0] + Closing(bs[0]) + Meaning(bs[1..])
  }

  // ----- reading plain bytes as blocks

  /** The blocks of `open + x`, where `open` is the block being filled. */
  function SplitFrom(open: Block, x: seq<byte>): (bs: seq<Block>)
    requires ZeroFree(open) && |open| < FULL
    ensures ValidBlocks(bs)
    decreases |x|
  {
    if x == [] then
      if open == [] then [] else [open]
    else if x[0] == 0 then
      [open] + SplitFrom([], x[1..])
    else if |open| + 1 == FULL then
      [open + [x[0]]] + SplitFrom([], x[1..])
    else
      SplitFrom(open + [x[0]], x[1..])
  }

  function Split(x: seq<byte>): (bs: seq<Block>)
    ensures ValidBlocks(bs)
  {
    SplitFrom([], x)
  }

  /** The frame of `x`: its blocks on the wire and the delimiter. */
  function Encode(x: seq<byte>): seq<byte> {
    Wire(Split(x)) + [0]
  }

  /** Length of the run of non-zero bytes at the end of `x`. */
  function TrailingRun(x: seq<byte>): nat {
    if x == [] || x[|x| - 1] == 0 then 0 else 1 + TrailingRun(x[..|x| - 1])
  }

  /** `x` ends inside a block that neither a zero nor the 254-byte limit has closed. */
  predicate EndsOpen(x: seq<byte>) {
    TrailingRun(x) % FULL != 0
  }

  /** What a frame of `x` stands for. */
  function Padded(x: seq<byte>): seq<byte> {
    if EndsOpen(x) then x + [0] else x
  }

  lemma {:induction false} TrailingRunAfterZero(x: seq<byte>, y: seq<byte>)
    ensures TrailingRun(x + [0] + y) == TrailingRun(y)
    decreases |y|
  {
    if y != [] && y[|y| - 1] != 0 {
      TrailingRunAfterZero(x, y[..|y| - 1]);
      assert (x + [0] + y)[..|x| + |y|] == x + [0] + y[..|y| - 1];
    }
  }

  lemma {:induction false} TrailingRunAfterRun(d: seq<byte>, y: seq<byte>)
    requires ZeroFree(d)
    ensures TrailingRun(d + y) == TrailingRun(y) || TrailingRun(d + y) == |d| + TrailingRun(y)
    ensures y == [] ==> TrailingRun(d + y) == |d|
    decreases |d| + |y|
  {
    if y == [] {
      assert d + y == d;
      if d != [] {
        TrailingRunAfterRun(d[..|d| - 1], []);
        assert d[..|d| - 1] + [] == d[..|d| - 1];
      }
    } else if y[|y| - 1] != 0 {
      TrailingRunAfterRun(d, y[..|y| - 1]);
      assert (d + y)[..|d| + |y| - 1] == d + y[..|y| - 1];
    }
  }

  lemma PaddedAfterZero(x: seq<byte>, y: seq<byte>)
    ensures Padded(x + [0] + y) == x + [0] + Padded(y)
  {
    TrailingRunAfterZero(x, y);
  }

  lemma PaddedAfterFull(d: seq<byte>, y: seq<byte>)
    requires ZeroFree(d) && |d| == FULL
    ensures Padded(d + y) == d + Padded(y)
  {
    TrailingRunAfterRun(d, y);
  }

  lemma PaddedOpen(d: seq<byte>)
    requires ZeroFree(d) && |d| < FULL
    ensures Padded(d) == if d == [] then [] else d + [0]
  {
    TrailingRunAfterRun(d, []);
    assert d + [] == d;
  }

  lemma MeaningCons(d: Block, bs: seq<Block>)
    ensures Meaning([d] + bs) == d + Closing(d) + Meaning(bs)
  {
    assert ([d] + bs)[1..] == bs;
  }

  lemma WireCons(d: Block, bs: seq<Block>)
    requires ValidBlock(d) && ValidBlocks(bs)
    ensures Wire([d] + bs) == WireBlock(d) + Wire(bs)
  {
    assert ([d] + bs)[1..] == bs;
  }

  /** The blocks of `x` stand for `x`, completed by a zero exactly when `x` ends open. */
  lemma {:induction false} MeaningOfSplitFrom(open: Block, x: seq<byte>)
    requires ZeroFree(open) && |open| < FULL
    ensures Meaning(SplitFrom(open, x)) == Padded(open + x)
    decreases |x|
  {
    hide Padded;
    if x == [] {
      PaddedOpen(open);
      assert open + [] == open;
      MeaningCons(open, []);
    } else {
      var b, rest := x[0], x[1..];
      if b == 0 {
        calc {
          Meaning(SplitFrom(open, x));
          { MeaningCons(open, SplitFrom([], rest)); }
          open + [0] + Meaning(SplitFrom([], rest));
          { MeaningOfSplitFrom([], rest); assert [] + rest == rest; }
          open + [0] + Padded(rest);
          { PaddedAfterZero(open, rest); }
          Padded(open + [0] + rest);
          { assert open + x == open + [0] + rest; }
          Padded(open + x);
        }
      } else if |open| + 1 == FULL {
        var full := open + [b];
        calc {
          Meaning(SplitFrom(open, x));
          { MeaningCons(full, SplitFrom([], rest)); }
          full + [] + Meaning(SplitFrom([], rest));
          { MeaningOfSplitFrom([], rest); assert [] + rest == rest; }
          full + Padded(rest);
          { PaddedAfterFull(full, rest); }
          Padded(full + rest);
          { assert open + x == full + rest; }
          Padded(open + x);
        }
      } else {
        MeaningOfSplitFrom(open + [b], rest);
        assert open + x == open + [b] + rest;
      }
    }
  }

  lemma MeaningOfSplit(x: seq<byte>)
    ensures Meaning(Split(x)) == Padded(x)
  {
    MeaningOfSplitFrom([], x);
    assert [] + x == x;
  }

  lemma {:induction false} SplitFromRun(open: Block, d: seq<byte>, x: seq<byte>)
    requires ZeroFree(open) && ZeroFree(d) && |open| + |d| < FULL
    ensures SplitFrom(open, d + x) == SplitFrom(open + d, x)
    decreases |d|
  {
    if d == [] {
      assert d + x == x && open + d == open;
    } else {
      SplitFromRun(open + [d[0]], d[1..], x);
      assert (d + x)[1..] == d[1..] + x;
      assert open + [d[0]] + d[1..] == open + d;
    }
  }

  /** A block is split off the front of what it and its successors stand for. */
  lemma SplitOffBlock(d: Block, x: seq<byte>)
    requires ValidBlock(d)
    ensures Split(d + Closing(d) + x) == [d] + Split(x)
  {
    var front := if |d| < FULL then d else d[..FULL - 1];
    var next := if |d| < FULL then [0] else [d[FULL - 1]];
    assert d + Closing(d) + x == front + (next + x);
    SplitFromRun([], front, next + x);
    assert [] + front == front;
    assert (next + x)[0] == next[0] && (next + x)[1..] == x;
    assert |d| == FULL ==> front + next == d;
  }

  /** Splitting recovers any sequence of valid blocks from what it stands for. */
  lemma {:induction false} SplitOfMeaning(bs: seq<Block>)
    requires ValidBlocks(bs)
    ensures Split(Meaning(bs)) == bs
  {
    if bs != [] {
      SplitOfMeaning(bs[1..]);
      SplitOffBlock(bs[0], Meaning(bs[1..]));
      assert [bs[0]] + bs[1..] == bs;
    }
  }

  // ----- reading a frame as blocks

  /** Following the length bytes of `w` arrives exactly at its end. */
  predicate Splits(w: seq<byte>)
    decreases |w|
  {
    w == [] || (w[0] != 0 && w[0] <= |w| && Splits(w[w[0]..]))
  }

  /** `w` is a frame without its delimiter. */
  predicate Accepted(w: seq<byte>) {
    ZeroFree(w) && Splits(w)
  }

  function Parse(w: seq<byte>): (bs: seq<Block>)
    requires Accepted(w)
    ensures ValidBlocks(bs)
    decreases |w|
  {
    if w == [] then [] else [w[1..w[0]]] + Parse(w[w[0]..])
  }

  lemma {:induction false} WireOfParse(w: seq<byte>)
    requires Accepted(w)
    ensures Wire(Parse(w)) == w
    decreases |w|
  {
    if w != [] {
      var d, rest := w[1..w[0]], w[w[0]..];
      WireOfParse(rest);
      WireCons(d, Parse(rest));
      assert w == WireBlock(d) + rest;
    }
  }

  lemma {:induction false} ParseOfWire(bs: seq<Block>)
    requires ValidBlocks(bs)
    ensures Accepted(Wire(bs))
    ensures Parse(Wire(bs)) == bs
  {
    if bs != [] {
      ParseOfWire(bs[1..]);
      var w, d := Wire(bs), bs[0];
      assert w[w[0]..] == Wire(bs[1..]);
      assert w[1..w[0]] == d;
      assert [d] + bs[1..] == bs;
    }
  }

  /** A byte string is accepted exactly when it is the wire form of some valid blocks. */
  lemma AcceptedIffWire(w: seq<byte>)
    ensures Accepted(w) <==> exists bs: seq<Block> :: ValidBlocks(bs) && Wire(bs) == w
  {
    if Accepted(w) {
      WireOfParse(w);
    }
    if bs: seq<Block> :| ValidBlocks(bs) && Wire(bs) == w {
      ParseOfWire(bs);
    }
  }

  /** A frame stands for no more bytes than it has, and for at least one byte per block. */
  lemma {:induction false} MeaningFits(bs: seq<Block>)
    requires ValidBlocks(bs)
    ensures |Meaning(bs)| <= |Wire(bs)|
    ensures bs != [] ==> |Meaning(bs)| > 0
  {
    if bs != [] {
      MeaningFits(bs[1..]);
    }
  }

  lemma {:induction false} WireAppend(bs: seq<Block>, d: Block)
    requires ValidBlocks(bs) && ValidBlock(d)
    ensures Wire(bs + [d]) == Wire(bs) + WireBlock(d)
  {
    hide WireBlock;
    if bs == [] {
      assert bs + [d] == [d] && [d][1..] == [];
    } else {
      WireAppend(bs[1..], d);
      var more := bs + [d];
      assert more[0] == bs[0] && more[1..] == bs[1..] + [d];
      assert WireBlock(bs[0]) + (Wire(bs[1..]) + WireBlock(d)) == WireBlock(bs[0]) + Wire(bs[1..]) + WireBlock(d);
    }
  }
}
