/** Lengths of encoded frames, and what the length functions of cobs.c say about them. */
module CobsLengths {
  import opened Bytes
  import opened CobsBlocks
  import opened CobsDecoding

  /** How many times a run of non-zero bytes reaches 254 in `x`, the current run being `run`. */
  function FullRuns(run: nat, x: seq<byte>): nat
    requires run < FULL
    decreases |x|
  {
    if x == [] then 0
    else if x[0] == 0 then FullRuns(0, x[1..])
    else if run + 1 == FULL then 1 + FullRuns(0, x[1..])
    else FullRuns(run + 1, x[1..])
  }

  function FullBlockCount(bs: seq<Block>): nat {
    if bs == [] then 0 else (if |bs[0]| == FULL then 1 else 0) + FullBlockCount(bs[1..])
  }

  lemma {:induction false} WireLength(bs: seq<Block>)
    requires ValidBlocks(bs)
    ensures |Wire(bs)| == |Meaning(bs)| + FullBlockCount(bs)
  {
    if bs != [] {
      WireLength(bs[1..]);
    }
  }

  lemma {:induction false} FullBlockCountOfSplit(open: Block, x: seq<byte>)
    requires ZeroFree(open) && |open| < FULL
    ensures FullBlockCount(SplitFrom(open, x)) == FullRuns(|open|, x)
    decreases |x|
  {
    if x == [] {
      assert open != [] ==> SplitFrom(open, x)[1..] == [];
    } else {
      var rest := x[1..];
      if x[0] == 0 || |open| + 1 == FULL {
        FullBlockCountOfSplit([], rest);
        assert SplitFrom(open, x)[1..] == SplitFrom([], rest);
      } else {
        FullBlockCountOfSplit(open + [x[0]], rest);
      }
    }
  }

  lemma {:induction false} FullRunsBound(run: nat, x: seq<byte>)
    requires run < FULL
    ensures FULL * FullRuns(run, x) <= run + |x|
    decreases |x|
  {
    if x != [] {
      var rest := x[1..];
      if x[0] == 0 || run + 1 == FULL {
        FullRunsBound(0, rest);
      } else {
        FullRunsBound(run + 1, rest);
      }
    }
  }

  /** The value of `cobs_encoded_length_from_decoded`. */
  function PredictedLength(x: seq<byte>): nat {
    |x| + 2 + FullRuns(0, x)
  }

  function WorstCase(len: nat): nat {
    len + 2 + len / 254
  }

  function BestCase(len: nat): nat {
    len + 2
  }

  /** The predicted length is right exactly when the input ends open; otherwise it is one more
      than the frame has. */
  lemma EncodedLength(x: seq<byte>)
    ensures |Encode(x)| == PredictedLength(x) - (if EndsOpen(x) then 0 else 1)
    ensures |x| + 1 <= |Encode(x)| <= PredictedLength(x) <= WorstCase(|x|)
  {
    WireLength(Split(x));
    MeaningOfSplit(x);
    FullBlockCountOfSplit([], x);
    FullRunsBound(0, x);
  }

  /** `cobs_encoded_length_best_case` is not a lower bound: a closed input without a full run
      takes one byte less, and those are all the exceptions. */
  lemma BestCaseIsBoundIff(x: seq<byte>)
    ensures BestCase(|x|) <= |Encode(x)| <==> EndsOpen(x) || FullRuns(0, x) > 0
  {
    EncodedLength(x);
  }

  lemma BestCaseFails()
    ensures |Encode([0])| < BestCase(|[0]|)
  {
    BestCaseIsBoundIff([0]);
    assert TrailingRun([0]) == 0;
    assert [0][1..] == [];
  }

  function Ones(n: nat): (s: seq<byte>)
    ensures |s| == n && forall i :: 0 <= i < n ==> s[i] == 1
  {
    seq(n, _ => 1)
  }

  lemma {:induction false} FullRunsOfOnes(run: nat, n: nat)
    requires run < FULL
    ensures FullRuns(run, Ones(n)) == (run + n) / FULL
    decreases n
  {
    if n > 0 {
      assert Ones(n)[1..] == Ones(n - 1);
      FullRunsOfOnes(if run + 1 == FULL then 0 else run + 1, n - 1);
    }
  }

  lemma {:induction false} MeaningAppend(bs: seq<Block>, d: Block)
    ensures Meaning(bs + [d]) == Meaning(bs) + (d + Closing(d))
  {
    hide Closing;
    if bs == [] {
      assert bs + [d] == [d] && [d][1..] == [];
    } else {
      MeaningAppend(bs[1..], d);
      var more := bs + [d];
      assert more[0] == bs[0] && more[1..] == bs[1..] + [d];
    }
  }

  lemma {:induction false} FullBlocksBound(bs: seq<Block>)
    requires ValidBlocks(bs) && bs != []
    ensures FULL * FullBlockCount(bs[..|bs| - 1]) <= |Meaning(bs[..|bs| - 1])|
    ensures var last := bs[|bs| - 1];
      |last| < FULL ==> FULL * FullBlockCount(bs) + |last| + 1 <= |Meaning(bs)|
  {
    var n := |bs| - 1;
    CountedBound(bs[..n]);
    CountAppend(bs[..n], bs[n]);
    MeaningAppend(bs[..n], bs[n]);
    assert bs[..n] + [bs[n]] == bs;
  }

  lemma {:induction false} CountedBound(bs: seq<Block>)
    ensures FULL * FullBlockCount(bs) <= |Meaning(bs)|
  {
    if bs != [] {
      CountedBound(bs[1..]);
    }
  }

  lemma {:induction false} CountAppend(bs: seq<Block>, d: Block)
    ensures FullBlockCount(bs + [d]) == FullBlockCount(bs) + if |d| == FULL then 1 else 0
  {
    if bs == [] {
      assert bs + [d] == [d] && [d][1..] == [];
    } else {
      CountAppend(bs[1..], d);
      var more := bs + [d];
      assert more[0] == bs[0] && more[1..] == bs[1..] + [d];
    }
  }

  /** The block an input ends open in is not empty. */
  lemma OpenBlockNotEmpty(x: seq<byte>)
    requires EndsOpen(x)
    ensures var bs := Split(x);
      bs != [] && 0 < |bs[|bs| - 1]| < FULL
  {
    hide Split, SplitFrom, Meaning;
    MeaningOfSplit(x);
    LastBlockOfSplit(x);
    var bs := Split(x);
    var n := |bs| - 1;
    if bs[n] == [] {
      MeaningAppend(bs[..n], bs[n]);
      assert bs[..n] + [bs[n]] == bs;
      assert Meaning(bs[..n]) + [0] == x + [0];
      assert (x + [0])[..|x|] == x && (Meaning(bs[..n]) + [0])[..|x|] == Meaning(bs[..n]);
      SplitOfMeaning(bs[..n]);
    }
  }

  /** An input that ends open has room beside its full runs. */
  lemma OpenLeavesRoom(x: seq<byte>)
    requires EndsOpen(x)
    ensures FULL * FullRuns(0, x) < |x|
  {
    hide Split, Meaning, FullBlockCount, FullRuns;
    OpenBlockNotEmpty(x);
    FullBlocksBound(Split(x));
    FullBlockCountOfSplit([], x);
    assert SplitFrom([], x) == Split(x) by { SplitIs(x); }
    MeaningOfSplit(x);
  }

  lemma SplitIs(x: seq<byte>)
    ensures Split(x) == SplitFrom([], x)
  {
  }

  /** The longest frame there is for inputs of a length: `cobs_encoded_length_worse_case` is
      reached, by bytes other than zero, unless 254 divides the length, and then it is one too
      many. */
  lemma LongestFrame(x: seq<byte>)
    ensures var most := WorstCase(|x|) - (if |x| % 254 == 0 then 1 else 0);
      |Encode(x)| <= most && |Encode(Ones(|x|))| == most
  {
    hide Encode, FullRuns, TrailingRun;
    EncodedLength(x);
    if EndsOpen(x) {
      OpenLeavesRoom(x);
    }
    var ones := Ones(|x|);
    EncodedLength(ones);
    FullRunsOfOnes(0, |x|);
    TrailingRunAfterRun(ones, []);
    assert ones + [] == ones;
  }

  /** Any input of at least three bytes fits a buffer of twice its size. */
  lemma DoubleBufferSuffices(x: seq<byte>)
    requires |x| >= 3
    ensures |Encode(x)| <= 2 * |x|
  {
    EncodedLength(x);
  }
}
