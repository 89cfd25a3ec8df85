/** Hamming distance of two buffers (error_util.c), and what an odd distance means to the
    horizontal parity. */
module ErrorUtil {
  import opened Bytes
  import opened Parity

  /** The 256-entry table, sixteen entries to a row. */
  const HD_TABLE: seq<seq<int>> := [
    [0, 1, 1, 2, 1, 2, 2, 3, 1, 2, 2, 3, 2, 3, 3, 4],
    [1, 2, 2, 3, 2, 3, 3, 4, 2, 3, 3, 4, 3, 4, 4, 5],
    [1, 2, 2, 3, 2, 3, 3, 4, 2, 3, 3, 4, 3, 4, 4, 5],
    [2, 3, 3, 4, 3, 4, 4, 5, 3, 4, 4, 5, 4, 5, 5, 6],
    [1, 2, 2, 3, 2, 3, 3, 4, 2, 3, 3, 4, 3, 4, 4, 5],
    [2, 3, 3, 4, 3, 4, 4, 5, 3, 4, 4, 5, 4, 5, 5, 6],
    [2, 3, 3, 4, 3, 4, 4, 5, 3, 4, 4, 5, 4, 5, 5, 6],
    [3, 4, 4, 5, 4, 5, 5, 6, 4, 5, 5, 6, 5, 6, 6, 7],
    [1, 2, 2, 3, 2, 3, 3, 4, 2, 3, 3, 4, 3, 4, 4, 5],
    [2, 3, 3, 4, 3, 4, 4, 5, 3, 4, 4, 5, 4, 5, 5, 6],
    [2, 3, 3, 4, 3, 4, 4, 5, 3, 4, 4, 5, 4, 5, 5, 6],
    [3, 4, 4, 5, 4, 5, 5, 6, 4, 5, 5, 6, 5, 6, 6, 7],
    [2, 3, 3, 4, 3, 4, 4, 5, 3, 4, 4, 5, 4, 5, 5, 6],
    [3, 4, 4, 5, 4, 5, 5, 6, 4, 5, 5, 6, 5, 6, 6, 7],
    [3, 4, 4, 5, 4, 5, 5, 6, 4, 5, 5, 6, 5, 6, 6, 7],
    [4, 5, 5, 6, 5, 6, 6, 7, 5, 6, 6, 7, 6, 7, 7, 8]
  ]

  /** Row `h` is the nibble table shifted by the weight of `h`. */
  predicate RowIs(row: seq<int>, base: int) {
    |row| == 16 && forall l :: 0 <= l < 16 ==> row[l] == base + BIT_TABLE[l]
  }

  lemma LowRows(h: nat)
    requires h < 8
    ensures RowIs(HD_TABLE[h], BIT_TABLE[h])
  {
  }

  lemma HighRows(h: nat)
    requires 8 <= h < 16
    ensures RowIs(HD_TABLE[h], BIT_TABLE[h])
  {
  }

  lemma TableIsWeight(b: byte)
    ensures |HD_TABLE[b / 16]| == 16 && HD_TABLE[b / 16][b % 16] == Weight(b)
  {
    if b < 128 {
      LowRows(b / 16);
    } else {
      HighRows(b / 16);
    }
    WeightByNibbles(b);
  }

  /** Bit positions below `k` at which `a` and `b` differ. */
  function DiffBits(a: nat, b: nat, k: nat): nat {
    if k == 0 then 0 else DiffBits(a, b, k - 1) + if Bit(a, k - 1) != Bit(b, k - 1) then 1 else 0
  }

  /** Number of bit positions at which two buffers of one length differ. */
  function HammingDistance(x: seq<byte>, y: seq<byte>): nat
    requires |x| == |y|
  {
    if x == [] then 0
    else HammingDistance(x[..|x| - 1], y[..|y| - 1]) + DiffBits(x[|x| - 1], y[|y| - 1], 8)
  }

  lemma {:induction false} DiffBitsShift(a: nat, b: nat, k: nat)
    ensures DiffBits(a, b, k + 1) == LowXor(a, b) + DiffBits(a / 2, b / 2, k)
  {
    if k > 0 {
      DiffBitsShift(a, b, k - 1);
    }
  }

  lemma {:induction false} DiffBitsIsWeight(a: nat, b: nat, k: nat)
    requires a < Pow2(k) && b < Pow2(k)
    ensures DiffBits(a, b, k) == Weight(Xor(a, b))
  {
    if k > 0 {
      DiffBitsShift(a, b, k - 1);
      DiffBitsIsWeight(a / 2, b / 2, k - 1);
      XorUnfold(a, b);
    }
  }

  lemma DiffBitsOfBytes(a: byte, b: byte)
    ensures DiffBits(a, b, 8) == Weight(XorByte(a, b))
  {
    Pow2Values();
    DiffBitsIsWeight(a, b, 8);
  }

  lemma DistanceStep(x: seq<byte>, y: seq<byte>, i: nat)
    requires i < |x| == |y|
    ensures HammingDistance(x[..i + 1], y[..i + 1])
         == HammingDistance(x[..i], y[..i]) + Weight(XorByte(x[i], y[i]))
  {
    hide Weight, DiffBits;
    assert x[..i + 1][..i] == x[..i] && y[..i + 1][..i] == y[..i];
    DiffBitsOfBytes(x[i], y[i]);
  }

  lemma NoDistance()
    ensures HammingDistance([], []) == 0
  {
  }

  /** hdcmp: the differences go to `xorbuf`, their number is returned. */
  method HdCmp(b1: seq<byte>, b2: seq<byte>, xorbuf: array<byte>) returns (hd: nat)
    requires |b1| == |b2| <= xorbuf.Length
    modifies xorbuf
    ensures hd == HammingDistance(b1, b2)
    ensures xorbuf[..|b1|] == XorBytes(b1, b2)
    ensures xorbuf[|b1|..] == old(xorbuf[|b1|..])
  {
    hide XorByte, Weight, DiffBits, HammingDistance;
    hd := 0;
    var i := 0;
    NoDistance();
    while i < |b1|
      invariant 0 <= i <= |b1|
      invariant hd == HammingDistance(b1[..i], b2[..i])
      invariant forall k :: 0 <= k < i ==> xorbuf[k] == XorByte(b1[k], b2[k])
      invariant xorbuf[|b1|..] == old(xorbuf[|b1|..])
    {
      DistanceStep(b1, b2, i);
      xorbuf[i] := XorByte(b1[i], b2[i]);
      TableIsWeight(xorbuf[i]);
      hd := hd + HD_TABLE[xorbuf[i] / 16][xorbuf[i] % 16];
      i := i + 1;
    }
    assert b1[..i] == b1 && b2[..i] == b2;
  }

  /** The distance is the number of places, byte and bit, at which the binary digits differ. */
  lemma {:induction false} DistanceCounts(x: seq<byte>, y: seq<byte>)
    requires |x| == |y|
    ensures HammingDistance(x, y)
         == |set k: nat, b: nat | k < |x| && b < 8 && x[k] / Pow2(b) % 2 != y[k] / Pow2(b) % 2 :: (k, b)|
  {
    hide Pow2, Bit, XorByte, HammingDistance, OneBits;
    var z := XorBytes(x, y);
    DistanceIsOnes(x, y, |x|);
    assert x[..|x|] == x && y[..|y|] == y;
    forall k: nat, b: nat | k < |x| && b < 8
      ensures z[k] / Pow2(b) % 2 == 1 <==> x[k] / Pow2(b) % 2 != y[k] / Pow2(b) % 2
    {
      DigitOfXor(x[k], y[k], b);
    }
    SameOnes(x, y, z);
  }

  lemma DigitOfXor(a: byte, c: byte, b: nat)
    ensures XorByte(a, c) / Pow2(b) % 2 == 1 <==> a / Pow2(b) % 2 != c / Pow2(b) % 2
  {
    hide Bit, Pow2, Xor;
    BitIsDigit(a, b);
    BitIsDigit(c, b);
    BitIsDigit(Xor(a, c), b);
    BitOfXor(a, c, b);
    SumIsOdd(Bit(a, b), Bit(c, b));
  }

  lemma SumIsOdd(x: nat, y: nat)
    requires x <= 1 && y <= 1
    ensures (x + y) % 2 == 1 <==> x != y
  {
  }

  lemma SameOnes(x: seq<byte>, y: seq<byte>, z: seq<byte>)
    requires |x| == |y| == |z|
    requires forall k: nat, b: nat | k < |x| && b < 8 ::
      z[k] / Pow2(b) % 2 == 1 <==> x[k] / Pow2(b) % 2 != y[k] / Pow2(b) % 2
    ensures OneBits(z, 0, |z|)
         == set k: nat, b: nat | k < |x| && b < 8 && x[k] / Pow2(b) % 2 != y[k] / Pow2(b) % 2 :: (k, b)
  {
  }

  lemma {:induction false} DistanceIsOnes(x: seq<byte>, y: seq<byte>, n: nat)
    requires n <= |x| == |y|
    ensures HammingDistance(x[..n], y[..n]) == |OneBits(XorBytes(x, y), 0, n)|
    decreases n
  {
    hide Weight, XorByte, OneBits, HammingDistance;
    if n == 0 {
      NoDistance();
      NoOneBits(XorBytes(x, y), 0);
    } else {
      DistanceIsOnes(x, y, n - 1);
      DistanceStep(x, y, n - 1);
      OneBitsStep(XorBytes(x, y), 0, n - 1);
    }
  }

  // ----- a metric

  lemma {:induction false} DistanceZeroIffEqual(x: seq<byte>, y: seq<byte>)
    requires |x| == |y|
    ensures HammingDistance(x, y) == 0 <==> x == y
  {
    if x != [] {
      var n := |x| - 1;
      DistanceZeroIffEqual(x[..n], y[..n]);
      DiffBitsOfBytes(x[n], y[n]);
      XorZeroIffEqual(x[n], y[n]);
      assert x == x[..n] + [x[n]] && y == y[..n] + [y[n]];
    }
  }

  lemma {:induction false} DistanceSymmetric(x: seq<byte>, y: seq<byte>)
    requires |x| == |y|
    ensures HammingDistance(x, y) == HammingDistance(y, x)
  {
    if x != [] {
      var n := |x| - 1;
      DistanceSymmetric(x[..n], y[..n]);
      DiffBitsOfBytes(x[n], y[n]);
      DiffBitsOfBytes(y[n], x[n]);
      XorCommutes(x[n], y[n]);
    }
  }

  lemma {:induction false} DistanceTriangle(x: seq<byte>, y: seq<byte>, z: seq<byte>)
    requires |x| == |y| == |z|
    ensures HammingDistance(x, z) <= HammingDistance(x, y) + HammingDistance(y, z)
  {
    if x != [] {
      var n := |x| - 1;
      DistanceTriangle(x[..n], y[..n], z[..n]);
      DiffBitsOfBytes(x[n], y[n]);
      DiffBitsOfBytes(y[n], z[n]);
      DiffBitsOfBytes(x[n], z[n]);
      XorTriangle(x[n], y[n], z[n]);
    }
  }

  // ----- odd distances and the horizontal parity

  function TotalWeight(z: seq<byte>): nat {
    if z == [] then 0 else TotalWeight(z[..|z| - 1]) + Weight(z[|z| - 1])
  }

  lemma {:induction false} DistanceIsXorWeight(x: seq<byte>, y: seq<byte>)
    requires |x| == |y|
    ensures HammingDistance(x, y) == TotalWeight(XorBytes(x, y))
  {
    if x != [] {
      var n := |x| - 1;
      DistanceIsXorWeight(x[..n], y[..n]);
      DiffBitsOfBytes(x[n], y[n]);
      assert XorBytes(x, y)[..n] == XorBytes(x[..n], y[..n]);
    }
  }

  function WeightUpTo(z: seq<byte>, k: nat): nat {
    TotalWeight(z[..Min(k, |z|)])
  }

  lemma WeightUpToStep(z: seq<byte>, k: nat)
    ensures WeightUpTo(z, k + 1) == WeightUpTo(z, k) + ByteWeightAt(z, k)
  {
    if k < |z| {
      assert z[..k + 1][..k] == z[..k];
    }
  }

  lemma {:induction false} EvenWordsEvenTotal(z: seq<byte>, words: nat)
    requires forall i :: 0 <= i < words ==> |WordOnes(z, i)| % 2 == 0
    ensures WeightUpTo(z, 4 * words) % 2 == 0
  {
    hide WeightUpTo, ByteWeightAt, WordOnes;
    if words == 0 {
      assert WeightUpTo(z, 0) == 0 by { WeightUpToNone(z); }
    } else {
      var k := 4 * (words - 1);
      EvenWordsEvenTotal(z, words - 1);
      WordWeightIsCount(z, words - 1);
      WeightUpToStep(z, k);
      WeightUpToStep(z, k + 1);
      WeightUpToStep(z, k + 2);
      WeightUpToStep(z, k + 3);
      assert WeightUpTo(z, 4 * words) == WeightUpTo(z, k) + WordWeight(z, words - 1);
    }
  }

  lemma WeightUpToNone(z: seq<byte>)
    ensures WeightUpTo(z, 0) == 0
  {
    assert z[..0] == [];
  }

  /** A change that flips an odd number of bits is always rejected. */
  lemma OddDistanceRejected(x: seq<byte>, y: seq<byte>, parity: seq<byte>)
    requires |x| == |y| && HParityAccepts(x, parity)
    requires HammingDistance(x, y) % 2 == 1
    ensures !HParityAccepts(y, parity)
  {
    var z := XorBytes(x, y);
    HParityDetects(x, y, parity);
    DistanceIsXorWeight(x, y);
    WordsFit(|z|);
    assert z[..Min(4 * HParityWords(|z|), |z|)] == z;
    if EvenWords(z) {
      EvenWordsEvenTotal(z, HParityWords(|z|));
    }
  }
}
