/** Vertical and horizontal parity (parity.c).

    Vertical parity keeps 256 odd-parity bits, but bit `i` is computed from byte column `i % 32`
    and bit `i % 8` of that column, so only 32 different columns are sampled. Horizontal parity
    keeps one odd-parity bit for each 32-bit word. The single-bit masks `1 << (i % 64)` are taken
    as 64-bit masks.
 */
module Parity {
  import opened Bytes

  // ----- vertical parity

  const VPARITY_LENGTH: nat := 32

  /** Ones at bit `bit` of the bytes `j`, `j + 32`, `j + 64`, ... */
  function ColumnWeight(buf: seq<byte>, j: nat, bit: nat): nat
    decreases |buf| - j
  {
    if j >= |buf| then 0 else Bit(buf[j], bit) + ColumnWeight(buf, j + 32, bit)
  }

  function Column(buf: seq<byte>, i: nat): nat {
    ColumnWeight(buf, i % 32, i % 8)
  }

  /** The bytes of column `j` from `j` on that have bit `bit` set. */
  ghost function SampledOnes(buf: seq<byte>, j: nat, bit: nat): set<nat> {
    set k: nat | j <= k < |buf| && k % 32 == j % 32 && Bit(buf[k], bit) == 1
  }

  /** What is counted: exactly the bytes at distance a multiple of 32 with the bit set. */
  lemma {:induction false} ColumnCountsSampledOnes(buf: seq<byte>, j: nat, bit: nat)
    ensures ColumnWeight(buf, j, bit) == |SampledOnes(buf, j, bit)|
    decreases |buf| - j
  {
    hide Bit;
    if j >= |buf| {
      assert SampledOnes(buf, j, bit) == {};
    } else {
      ColumnCountsSampledOnes(buf, j + 32, bit);
      SampledOnesStep(buf, j, bit);
    }
  }

  lemma {:induction false} SampledOnesStep(buf: seq<byte>, j: nat, bit: nat)
    requires j < |buf|
    ensures j !in SampledOnes(buf, j + 32, bit)
    ensures SampledOnes(buf, j, bit)
         == (if Bit(buf[j], bit) == 1 then {j} else {}) + SampledOnes(buf, j + 32, bit)
  {
    hide Bit;
    var here, rest := SampledOnes(buf, j, bit), SampledOnes(buf, j + 32, bit);
    assert (j + 32) % 32 == j % 32;
    forall k: nat | k in here && k != j
      ensures k in rest
    {
      NextInColumn(j, k);
    }
  }

  lemma NextInColumn(j: nat, k: nat)
    requires j < k && k % 32 == j % 32
    ensures j + 32 <= k
  {
  }

  /** The bytes that parity bit `i` is about: every 32nd one from `i % 32` on, those in which the
      binary digit at place `i % 8` is one. */
  ghost function Sampled(buf: seq<byte>, i: nat): set<nat> {
    set k: nat | k < |buf| && k % 32 == i % 32 && buf[k] / Pow2(i % 8) % 2 == 1
  }

  lemma {:induction false} ColumnIsSampled(buf: seq<byte>, i: nat)
    ensures Column(buf, i) == |Sampled(buf, i)|
  {
    hide Bit, Pow2, ColumnWeight;
    var j, bit := i % 32, i % 8;
    ColumnCountsSampledOnes(buf, j, bit);
    forall k: nat | k < |buf| && k % 32 == j
      ensures j <= k && (Bit(buf[k], bit) == 1 <==> buf[k] / Pow2(bit) % 2 == 1)
    {
      BitIsDigit(buf[k], bit);
    }
    assert Sampled(buf, i) == SampledOnes(buf, j, bit);
  }

  predicate VBitOk(buf: seq<byte>, parity: seq<uint64>, i: nat)
    requires |parity| == 4 && i < 256
  {
    Bit(parity[i / 64], i % 64) == 1 - Column(buf, i) % 2
  }

  /** `parity` is the vertical parity of `buf`: each bit makes its column odd. */
  predicate VParityOf(buf: seq<byte>, parity: seq<uint64>) {
    |parity| == 4 && forall i :: 0 <= i < 256 ==> VBitOk(buf, parity, i)
  }

  /** What the vertical parity says of a buffer, bit for bit and without a word about how it is
      computed. */
  lemma VParityBits(buf: seq<byte>, parity: seq<uint64>, i: nat)
    requires VParityOf(buf, parity) && i < 256
    ensures parity[i / 64] / Pow2(i % 64) % 2
         == 1 - |set k: nat | k < |buf| && k % 32 == i % 32 && buf[k] / Pow2(i % 8) % 2 == 1| % 2
  {
    hide Bit, Pow2, Column;
    assert VBitOk(buf, parity, i);
    BitIsDigit(parity[i / 64], i % 64);
    ColumnIsSampled(buf, i);
  }

  method CountColumn(buf: seq<byte>, byteoffset: nat, bitoffset: nat) returns (total: nat)
    ensures total == ColumnWeight(buf, byteoffset, bitoffset)
  {
    total := 0;
    var j := byteoffset;
    while j < |buf|
      invariant byteoffset <= j
      invariant total + ColumnWeight(buf, j, bitoffset) == ColumnWeight(buf, byteoffset, bitoffset)
    {
      if Bit(buf[j], bitoffset) != 0 {
        total := total + 1;
      }
      j := j + 32;
    }
  }

  /** The first `i` bits are in place and the others are still clear. */
  ghost predicate VPartial(buf: seq<byte>, parity: seq<uint64>, i: nat)
    requires |parity| == 4
  {
    forall k :: 0 <= k < 256 ==>
      if k < i then VBitOk(buf, parity, k) else Bit(parity[k / 64], k % 64) == 0
  }

  function WithBit(parity: seq<uint64>, i: nat): (r: seq<uint64>)
    requires |parity| == 4 && i < 256
    ensures |r| == 4
  {
    Pow2Values();
    SetBitInRange(parity[i / 64], i % 64, 64);
    parity[i / 64 := SetBit(parity[i / 64], i % 64)]
  }

  lemma WithBitOnly(parity: seq<uint64>, i: nat, k: nat)
    requires |parity| == 4 && i < 256 && k < 256
    ensures Bit(WithBit(parity, i)[k / 64], k % 64)
         == if k == i then 1 else Bit(parity[k / 64], k % 64)
  {
    if k / 64 == i / 64 {
      BitOfSetBit(parity[i / 64], i % 64, k % 64);
    }
  }

  lemma VPartialStep(buf: seq<byte>, parity: seq<uint64>, i: nat)
    requires |parity| == 4 && i < 256 && VPartial(buf, parity, i)
    ensures Column(buf, i) % 2 == 0 ==> VPartial(buf, WithBit(parity, i), i + 1)
    ensures Column(buf, i) % 2 == 1 ==> VPartial(buf, parity, i + 1)
  {
    forall k | 0 <= k < 256 {
      WithBitOnly(parity, i, k);
    }
  }

  /** compute_vparity. */
  method ComputeVParity(buf: seq<byte>, parity: array<uint64>)
    requires parity.Length == 4
    modifies parity
    ensures VParityOf(buf, parity[..])
  {
    parity[0], parity[1], parity[2], parity[3] := 0, 0, 0, 0;
    forall k | 0 <= k < 256
      ensures Bit(parity[..][k / 64], k % 64) == 0
    {
      ZeroHasNoBits(k % 64);
    }
    var i := 0;
    while i < 256
      invariant 0 <= i <= 256
      invariant VPartial(buf, parity[..], i)
    {
      var total := CountColumn(buf, i % 32, i % 8);
      ghost var p := parity[..];
      VPartialStep(buf, p, i);
      if total % 2 == 0 {
        var w := WithBit(parity[..], i);
        parity[i / 64] := w[i / 64];
        assert parity[..] == WithBit(p, i);
      }
      i := i + 1;
    }
  }

  /** check_vparity. */
  method CheckVParity(buf: seq<byte>, parity: seq<uint64>) returns (ok: bool)
    requires |parity| == 4
    ensures ok == VParityOf(buf, parity)
  {
    hide Bit, ColumnWeight;
    var i := 0;
    while i < 256
      invariant 0 <= i <= 256
      invariant forall k :: 0 <= k < i ==> VBitOk(buf, parity, k)
    {
      var total := CountColumn(buf, i % 32, i % 8);
      if Bit(parity[i / 64], i % 64) != 0 {
        total := total + 1;
      }
      if total % 2 == 0 {
        assert !VBitOk(buf, parity, i);
        return false;
      }
      i := i + 1;
    }
    return true;
  }

  /** A buffer has one vertical parity. */
  lemma VParityUnique(buf: seq<byte>, p: seq<uint64>, q: seq<uint64>)
    requires VParityOf(buf, p) && VParityOf(buf, q)
    ensures p == q
  {
    Pow2Values();
    forall w | 0 <= w < 4
      ensures p[w] == q[w]
    {
      forall k | 0 <= k < 64
        ensures Bit(p[w], k) == Bit(q[w], k)
      {
        var i := 64 * w + k;
        assert i / 64 == w && i % 64 == k;
        assert VBitOk(buf, p, i) && VBitOk(buf, q, i);
      }
      BitsDetermine(p[w], q[w], 64);
    }
  }

  // ----- horizontal parity

  /** compute_hparity_words. */
  function HParityWords(len: nat): nat {
    len / 4 + if len % 4 != 0 then 1 else 0
  }

  /** compute_hparity_length. */
  function HParityLength(len: nat): nat {
    var words := HParityWords(len);
    words / 8 + if words % 8 != 0 then 1 else 0
  }

  function ByteWeightAt(buf: seq<byte>, k: nat): nat {
    if k < |buf| then Weight(buf[k]) else 0
  }

  /** Ones in the `i`-th 32-bit word; the last word may be short. */
  function WordWeight(buf: seq<byte>, i: nat): nat {
    ByteWeightAt(buf, 4 * i) + ByteWeightAt(buf, 4 * i + 1)
    + ByteWeightAt(buf, 4 * i + 2) + ByteWeightAt(buf, 4 * i + 3)
  }

  function HBit(parity: seq<byte>, i: nat): nat
    requires i < 8 * |parity|
  {
    Bit(parity[i / 8], i % 8)
  }

  /** There are just enough words for the bytes, and just enough parity bytes for the words. */
  lemma WordsFit(len: nat)
    ensures HParityWords(len) <= 8 * HParityLength(len) < HParityWords(len) + 8
    ensures len <= 4 * HParityWords(len) < len + 4
  {
  }

  /** The places of the ones in the `i`-th 32-bit word. */
  ghost function WordOnes(buf: seq<byte>, i: nat): set<(nat, nat)> {
    OneBits(buf, 4 * i, 4 * i + 4)
  }

  lemma {:induction false} WordWeightIsCount(buf: seq<byte>, i: nat)
    ensures WordWeight(buf, i) == |WordOnes(buf, i)|
  {
    hide OneBits, Weight;
    var k := 4 * i;
    NoOneBits(buf, k);
    OneBitsStep(buf, k, k);
    OneBitsStep(buf, k, k + 1);
    OneBitsStep(buf, k, k + 2);
    OneBitsStep(buf, k, k + 3);
  }

  predicate HBitOk(buf: seq<byte>, parity: seq<byte>, i: nat)
    requires i < 8 * |parity|
  {
    HBit(parity, i) == 1 - WordWeight(buf, i) % 2
  }

  /** `parity` makes every word of `buf` odd. */
  predicate HParityAccepts(buf: seq<byte>, parity: seq<byte>) {
    && HParityLength(|buf|) <= |parity|
    && (WordsFit(|buf|);
        forall i :: 0 <= i < HParityWords(|buf|) ==> HBitOk(buf, parity, i))
  }

  /** `parity` is the horizontal parity of `buf`, the spare bits being clear. */
  predicate HParityOf(buf: seq<byte>, parity: seq<byte>) {
    && |parity| == HParityLength(|buf|)
    && HParityAccepts(buf, parity)
    && forall i :: HParityWords(|buf|) <= i < 8 * |parity| ==> HBit(parity, i) == 0
  }

  lemma SpareBit(buf: seq<byte>, parity: seq<byte>, i: nat)
    requires HParityOf(buf, parity) && HParityWords(|buf|) <= i < 8 * |parity|
    ensures HBit(parity, i) == 0
  {
  }

  lemma WordBit(buf: seq<byte>, parity: seq<byte>, i: nat)
    requires HParityOf(buf, parity) && i < 8 * |parity| && i < HParityWords(|buf|)
    ensures HBit(parity, i) == 1 - |WordOnes(buf, i)| % 2
  {
    hide HBit, WordWeight, WordOnes;
    assert HBitOk(buf, parity, i);
    WordWeightIsCount(buf, i);
  }

  /** What the horizontal parity says of a buffer, bit for bit: bit `i % 8` of byte `i / 8` makes
      the number of ones in bytes `4 i` to `4 i + 3` odd, and bits without a word are clear. */
  lemma HParityBits(buf: seq<byte>, parity: seq<byte>, i: nat)
    requires HParityOf(buf, parity) && i < 8 * |parity|
    ensures parity[i / 8] / Pow2(i % 8) % 2
         == if |buf| <= 4 * i then 0 else 1 - |OneBits(buf, 4 * i, 4 * i + 4)| % 2
  {
    hide Bit, Pow2, OneBits, HParityAccepts, HParityLength, HParityWords;
    WordsFit(|buf|);
    BitIsDigit(parity[i / 8], i % 8);
    if i < HParityWords(|buf|) {
      WordBit(buf, parity, i);
    } else {
      SpareBit(buf, parity, i);
    }
  }

  const BIT_TABLE: seq<int> := [0, 1, 1, 2, 1, 2, 2, 3, 1, 2, 2, 3, 2, 3, 3, 4]

  lemma WeightOfNibble(n: nat)
    requires n < 16
    ensures BIT_TABLE[n] == Weight(n)
  {
  }

  lemma WeightByNibbles(b: byte)
    ensures Weight(b) == BIT_TABLE[b / 16] + BIT_TABLE[b % 16]
  {
    hide Weight;
    var high, low := b / 16, b % 16;
    assert b == 16 * high + low;
    WeightOfNibbles(high, low);
    WeightOfNibble(high);
    WeightOfNibble(low);
  }

  lemma WeightOfNibbles(high: nat, low: nat)
    requires low < 16
    ensures Weight(16 * high + low) == Weight(high) + Weight(low)
  {
    assert Pow2(4) == 16;
    WeightConcat(high, low, 4);
  }

  lemma {:induction false} WeightConcat(high: nat, low: nat, k: nat)
    requires low < Pow2(k)
    ensures Weight(Pow2(k) * high + low) == Weight(high) + Weight(low)
  {
    hide Weight;
    if k == 0 {
      assert Weight(0) == 0 by { WeightOfZero(); }
      assert Pow2(0) * high + low == high;
    } else {
      var half, bit := low / 2, low % 2;
      WeightConcat(high, half, k - 1);
      WeightDouble(Pow2(k - 1) * high + half, bit);
      WeightDouble(half, bit);
      DoubleShift(Pow2(k - 1), high, half, bit);
    }
  }

  lemma WeightOfZero()
    ensures Weight(0) == 0
  {
  }

  lemma DoubleShift(p: nat, high: nat, half: nat, bit: nat)
    ensures 2 * p * high + (2 * half + bit) == 2 * (p * high + half) + bit
  {
  }

  lemma WeightDouble(n: nat, bit: nat)
    requires bit <= 1
    ensures Weight(2 * n + bit) == Weight(n) + bit
  {
    WeightUnfold(2 * n + bit);
  }

  /** The inner loop of both horizontal routines. */
  method CountWord(buf: seq<byte>, i: nat, start: nat) returns (total: nat)
    ensures total == start + WordWeight(buf, i)
  {
    total := start;
    var j := 0;
    while j < 4
      invariant 0 <= j <= 4
      invariant total == start
        + (if j > 0 then ByteWeightAt(buf, 4 * i) else 0)
        + (if j > 1 then ByteWeightAt(buf, 4 * i + 1) else 0)
        + (if j > 2 then ByteWeightAt(buf, 4 * i + 2) else 0)
        + (if j > 3 then ByteWeightAt(buf, 4 * i + 3) else 0)
    {
      if i * 4 + j < |buf| {
        var b := buf[i * 4 + j];
        WeightByNibbles(b);
        total := total + BIT_TABLE[b / 16] + BIT_TABLE[b % 16];
      }
      j := j + 1;
    }
  }

  ghost predicate HPartial(buf: seq<byte>, parity: seq<byte>, i: nat) {
    forall k :: 0 <= k < 8 * |parity| ==>
      if k < i then HBitOk(buf, parity, k) else HBit(parity, k) == 0
  }

  function WithHBit(parity: seq<byte>, i: nat): (r: seq<byte>)
    requires i < 8 * |parity|
    ensures |r| == |parity|
  {
    Pow2Values();
    SetBitInRange(parity[i / 8], i % 8, 8);
    parity[i / 8 := SetBit(parity[i / 8], i % 8)]
  }

  lemma WithHBitOnly(parity: seq<byte>, i: nat, k: nat)
    requires i < 8 * |parity| && k < 8 * |parity|
    ensures HBit(WithHBit(parity, i), k) == if k == i then 1 else HBit(parity, k)
  {
    if k / 8 == i / 8 {
      BitOfSetBit(parity[i / 8], i % 8, k % 8);
    }
  }

  lemma HPartialStep(buf: seq<byte>, parity: seq<byte>, i: nat)
    requires i < 8 * |parity| && HPartial(buf, parity, i)
    ensures WordWeight(buf, i) % 2 == 0 ==> HPartial(buf, WithHBit(parity, i), i + 1)
    ensures WordWeight(buf, i) % 2 == 1 ==> HPartial(buf, parity, i + 1)
  {
    forall k | 0 <= k < 8 * |parity| {
      WithHBitOnly(parity, i, k);
    }
  }

  /** compute_hparity. */
  method ComputeHParity(buf: seq<byte>, parity: array<byte>)
    requires parity.Length == HParityLength(|buf|)
    modifies parity
    ensures HParityOf(buf, parity[..])
  {
    var words := HParityWords(|buf|);
    WordsFit(|buf|);
    var k := 0;
    while k < parity.Length
      invariant 0 <= k <= parity.Length
      invariant forall j :: 0 <= j < k ==> parity[j] == 0
    {
      parity[k] := 0;
      k := k + 1;
    }
    forall k | 0 <= k < 8 * parity.Length
      ensures HBit(parity[..], k) == 0
    {
      ZeroHasNoBits(k % 8);
    }
    var i := 0;
    while i < words
      invariant 0 <= i <= words
      invariant HPartial(buf, parity[..], i)
    {
      var total := CountWord(buf, i, 0);
      ghost var p := parity[..];
      HPartialStep(buf, p, i);
      if total % 2 == 0 {
        var w := WithHBit(parity[..], i);
        parity[i / 8] := w[i / 8];
        assert parity[..] == WithHBit(p, i);
      }
      i := i + 1;
    }
  }

  /** check_hparity. */
  method CheckHParity(buf: seq<byte>, parity: seq<byte>) returns (ok: bool)
    requires HParityLength(|buf|) <= |parity|
    ensures ok == HParityAccepts(buf, parity)
  {
    hide Bit, WordWeight, HParityLength, HParityWords;
    WordsFit(|buf|);
    var i := 0;
    while i < HParityWords(|buf|)
      invariant 0 <= i <= HParityWords(|buf|)
      invariant forall k :: 0 <= k < i ==> HBitOk(buf, parity, k)
    {
      var total := CountWord(buf, i, if Bit(parity[i / 8], i % 8) != 0 then 1 else 0);
      if total % 2 == 0 {
        assert !HBitOk(buf, parity, i);
        return false;
      }
      i := i + 1;
    }
    return true;
  }

  /** A buffer has one horizontal parity. */
  lemma HParityUnique(buf: seq<byte>, p: seq<byte>, q: seq<byte>)
    requires HParityOf(buf, p) && HParityOf(buf, q)
    ensures p == q
  {
    Pow2Values();
    forall w | 0 <= w < |p|
      ensures p[w] == q[w]
    {
      forall k | 0 <= k < 8
        ensures Bit(p[w], k) == Bit(q[w], k)
      {
        var i := 8 * w + k;
        assert i / 8 == w && i % 8 == k;
        assert HBit(p, i) == HBit(q, i) by {
          if i < HParityWords(|buf|) {
            assert HBitOk(buf, p, i) && HBitOk(buf, q, i);
          }
        }
      }
      BitsDetermine(p[w], q[w], 8);
    }
  }

  // ----- what the parities detect

  lemma {:induction false} ColumnWeightOfXor(x: seq<byte>, y: seq<byte>, j: nat, bit: nat)
    requires |x| == |y|
    ensures ColumnWeight(XorBytes(x, y), j, bit) % 2
         == (ColumnWeight(x, j, bit) + ColumnWeight(y, j, bit)) % 2
    decreases |x| - j
  {
    if j < |x| {
      ColumnWeightOfXor(x, y, j + 32, bit);
      BitOfXor(x[j], y[j], bit);
      AddParities(Bit(x[j], bit), Bit(y[j], bit), Bit(XorByte(x[j], y[j]), bit),
                  ColumnWeight(x, j + 32, bit), ColumnWeight(y, j + 32, bit),
                  ColumnWeight(XorBytes(x, y), j + 32, bit));
    }
  }

  lemma AddParities(a: nat, b: nat, c: nat, p: nat, q: nat, r: nat)
    requires c % 2 == (a + b) % 2 && r % 2 == (p + q) % 2
    ensures (c + r) % 2 == (a + p + (b + q)) % 2
  {
  }

  lemma ByteWeightOfXor(x: seq<byte>, y: seq<byte>, k: nat)
    requires |x| == |y|
    ensures ByteWeightAt(XorBytes(x, y), k) % 2 == (ByteWeightAt(x, k) + ByteWeightAt(y, k)) % 2
  {
    if k < |x| {
      WeightOfXor(x[k], y[k]);
    }
  }

  lemma WordWeightOfXor(x: seq<byte>, y: seq<byte>, i: nat)
    requires |x| == |y|
    ensures WordWeight(XorBytes(x, y), i) % 2 == (WordWeight(x, i) + WordWeight(y, i)) % 2
  {
    var z := XorBytes(x, y);
    var k := 4 * i;
    ByteWeightOfXor(x, y, k);
    ByteWeightOfXor(x, y, k + 1);
    ByteWeightOfXor(x, y, k + 2);
    ByteWeightOfXor(x, y, k + 3);
    AddParities(ByteWeightAt(x, k), ByteWeightAt(y, k), ByteWeightAt(z, k),
                ByteWeightAt(x, k + 1), ByteWeightAt(y, k + 1), ByteWeightAt(z, k + 1));
    AddParities(ByteWeightAt(x, k + 2), ByteWeightAt(y, k + 2), ByteWeightAt(z, k + 2),
                ByteWeightAt(x, k + 3), ByteWeightAt(y, k + 3), ByteWeightAt(z, k + 3));
    AddParities(ByteWeightAt(x, k) + ByteWeightAt(x, k + 1), ByteWeightAt(y, k) + ByteWeightAt(y, k + 1),
                ByteWeightAt(z, k) + ByteWeightAt(z, k + 1),
                ByteWeightAt(x, k + 2) + ByteWeightAt(x, k + 3), ByteWeightAt(y, k + 2) + ByteWeightAt(y, k + 3),
                ByteWeightAt(z, k + 2) + ByteWeightAt(z, k + 3));
  }

  /** Every one of the 32 sampled columns of `z` has an even number of ones. */
  ghost predicate EvenColumns(z: seq<byte>) {
    forall c :: 0 <= c < 32 ==> |Sampled(z, c)| % 2 == 0
  }

  /** Every 32-bit word of `z` has an even number of ones. */
  ghost predicate EvenWords(z: seq<byte>) {
    forall i :: 0 <= i < HParityWords(|z|) ==> |WordOnes(z, i)| % 2 == 0
  }

  lemma ColumnOfXor(x: seq<byte>, y: seq<byte>, i: nat)
    requires |x| == |y|
    ensures Column(XorBytes(x, y), i % 32) % 2 == (Column(x, i) + Column(y, i)) % 2
  {
    hide ColumnWeight;
    SampledColumn(i);
    ColumnWeightOfXor(x, y, i % 32, i % 8);
  }

  lemma SampledColumn(i: nat)
    ensures i % 32 % 32 == i % 32 && i % 32 % 8 == i % 8
  {
  }

  lemma VBitOkAfterChange(x: seq<byte>, y: seq<byte>, parity: seq<uint64>, i: nat)
    requires |x| == |y| && |parity| == 4 && i < 256 && VBitOk(x, parity, i)
    ensures VBitOk(y, parity, i) <==> Column(XorBytes(x, y), i % 32) % 2 == 0
  {
    hide Column;
    ColumnOfXor(x, y, i);
    SameParityIff(Column(x, i), Column(y, i), Column(XorBytes(x, y), i % 32));
  }

  /** A change of content passes the vertical check exactly when it is even in every sampled
      column. */
  lemma VParityDetects(x: seq<byte>, y: seq<byte>, parity: seq<uint64>)
    requires |x| == |y| && VParityOf(x, parity)
    ensures VParityOf(y, parity) <==> EvenColumns(XorBytes(x, y))
  {
    hide Sampled, Column, VBitOk, XorBytes;
    forall i | 0 <= i < 256
      ensures VBitOk(y, parity, i) <==> Column(XorBytes(x, y), i % 32) % 2 == 0
    {
      assert VBitOk(x, parity, i);
      VBitOkAfterChange(x, y, parity, i);
    }
    forall c | 0 <= c < 32
      ensures Column(XorBytes(x, y), c) == |Sampled(XorBytes(x, y), c)|
    {
      ColumnIsSampled(XorBytes(x, y), c);
    }
    if VParityOf(y, parity) {
      forall c | 0 <= c < 32
        ensures |Sampled(XorBytes(x, y), c)| % 2 == 0
      {
        assert VBitOk(y, parity, c) && c % 32 == c;
      }
    }
  }

  lemma HBitOkAfterChange(x: seq<byte>, y: seq<byte>, parity: seq<byte>, i: nat)
    requires |x| == |y| && i < 8 * |parity| && HBitOk(x, parity, i)
    ensures HBitOk(y, parity, i) <==> WordWeight(XorBytes(x, y), i) % 2 == 0
  {
    WordWeightOfXor(x, y, i);
    SameParityIff(WordWeight(x, i), WordWeight(y, i), WordWeight(XorBytes(x, y), i));
  }

  lemma SameParityIff(p: nat, q: nat, r: nat)
    requires r % 2 == (p + q) % 2
    ensures p % 2 == q % 2 <==> r % 2 == 0
  {
  }

  /** A change of content passes the horizontal check exactly when it is even in every word. */
  lemma HParityDetects(x: seq<byte>, y: seq<byte>, parity: seq<byte>)
    requires |x| == |y| && HParityAccepts(x, parity)
    ensures HParityAccepts(y, parity) <==> EvenWords(XorBytes(x, y))
  {
    hide WordOnes, WordWeight, HBitOk;
    WordsFit(|x|);
    forall i | 0 <= i < HParityWords(|x|)
      ensures HBitOk(y, parity, i) <==> |WordOnes(XorBytes(x, y), i)| % 2 == 0
    {
      assert HBitOk(x, parity, i);
      HBitOkAfterChange(x, y, parity, i);
      WordWeightIsCount(XorBytes(x, y), i);
    }
  }
}
