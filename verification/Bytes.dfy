/** Bytes, machine words and the bits inside them.

    Bytes and words are ranges of mathematical integers. Bits are read and written by
    halving, which is what the masks and shifts of the C code do to a value in range.
 */
module Bytes {
  import opened Arithmetic

  type byte = b: int | 0 <= b < 0x100
  type uint16 = n: int | 0 <= n < 0x1_0000
  type uint32 = n: int | 0 <= n < 0x1_0000_0000
  type uint64 = n: int | 0 <= n < 0x1_0000_0000_0000_0000

  const UINT64_MAX: uint64 := 0xFFFF_FFFF_FFFF_FFFF

  datatype Option<+T> = None | Some(value: T)

  function Min(a: int, b: int): int {
    if a <= b then a else b
  }

  predicate ZeroFree(s: seq<byte>) {
    forall i :: 0 <= i < |s| ==> s[i] != 0
  }

  // ----- powers of two

  function Pow2(k: nat): (p: nat)
    ensures p > 0
  {
    if k == 0 then 1 else 2 * Pow2(k - 1)
  }

  lemma Pow2Values()
    ensures Pow2(8) == 0x100
    ensures Pow2(64) == 0x1_0000_0000_0000_0000
  {
    assert Pow2(4) == 16;
    assert Pow2(8) == 256;
    assert Pow2(12) == 0x1000;
    assert Pow2(16) == 0x1_0000;
    assert Pow2(20) == 0x10_0000;
    assert Pow2(24) == 0x100_0000;
    assert Pow2(28) == 0x1000_0000;
    assert Pow2(32) == 0x1_0000_0000;
    assert Pow2(36) == 0x10_0000_0000;
    assert Pow2(40) == 0x100_0000_0000;
    assert Pow2(44) == 0x1000_0000_0000;
    assert Pow2(48) == 0x1_0000_0000_0000;
    assert Pow2(52) == 0x10_0000_0000_0000;
    assert Pow2(56) == 0x100_0000_0000_0000;
    assert Pow2(60) == 0x1000_0000_0000_0000;
    assert Pow2(64) == 0x1_0000_0000_0000_0000;
  }

  // ----- single bits

  /** Bit `k` of `n`: `(n & (1 << k)) != 0` as a number. */
  function Bit(n: nat, k: nat): (b: nat)
    ensures b <= 1
    decreases k
  {
    if k == 0 then n % 2 else Bit(n / 2, k - 1)
  }

  /** Bit `k` is the `k`-th binary digit. */
  lemma {:induction false} BitIsDigit(n: nat, k: nat)
    ensures Bit(n, k) == n / Pow2(k) % 2
    decreases k
  {
    if k > 0 {
      BitIsDigit(n / 2, k - 1);
      DivideTwice(n, 2, Pow2(k - 1));
    }
  }

  /** `n | (1 << k)`. */
  function SetBit(n: nat, k: nat): nat
    decreases k
  {
    if k == 0 then n / 2 * 2 + 1 else 2 * SetBit(n / 2, k - 1) + n % 2
  }

  /** Setting a bit changes that bit and no other. */
  lemma {:induction false} BitOfSetBit(n: nat, k: nat, j: nat)
    ensures Bit(SetBit(n, k), j) == if j == k then 1 else Bit(n, j)
    decreases k
  {
    if k > 0 && j > 0 {
      BitOfSetBit(n / 2, k - 1, j - 1);
    }
  }

  lemma {:induction false} SetBitInRange(n: nat, k: nat, width: nat)
    requires k < width && n < Pow2(width)
    ensures SetBit(n, k) < Pow2(width)
    decreases k
  {
    if k > 0 {
      SetBitInRange(n / 2, k - 1, width - 1);
    }
  }

  lemma {:induction false} ZeroHasNoBits(k: nat)
    ensures Bit(0, k) == 0
  {
    if k > 0 {
      ZeroHasNoBits(k - 1);
    }
  }

  /** A word is determined by its bits. */
  lemma {:induction false} BitsDetermine(a: nat, b: nat, width: nat)
    requires a < Pow2(width) && b < Pow2(width)
    requires forall k | 0 <= k < width :: Bit(a, k) == Bit(b, k)
    ensures a == b
  {
    if width > 0 {
      assert Bit(a, 0) == Bit(b, 0);
      forall k | 0 <= k < width - 1
        ensures Bit(a / 2, k) == Bit(b / 2, k)
      {
        assert Bit(a, k + 1) == Bit(b, k + 1);
      }
      BitsDetermine(a / 2, b / 2, width - 1);
    }
  }

  // ----- weight and exclusive or

  /** Number of one bits. */
  function Weight(n: nat): nat {
    if n == 0 then 0 else n % 2 + Weight(n / 2)
  }

  function LowXor(a: nat, b: nat): (x: nat)
    ensures x <= 1
  {
    if a % 2 == b % 2 then 0 else 1
  }

  function Xor(a: nat, b: nat): nat
    decreases a + b
  {
    if a == 0 && b == 0 then 0 else LowXor(a, b) + 2 * Xor(a / 2, b / 2)
  }

  lemma {:induction false} XorInRange(a: nat, b: nat, width: nat)
    requires a < Pow2(width) && b < Pow2(width)
    ensures Xor(a, b) < Pow2(width)
  {
    if width > 0 {
      XorInRange(a / 2, b / 2, width - 1);
    }
  }

  lemma {:induction false} BitOfXor(a: nat, b: nat, k: nat)
    ensures Bit(Xor(a, b), k) == (Bit(a, k) + Bit(b, k)) % 2
    decreases k
  {
    if k > 0 {
      BitOfXor(a / 2, b / 2, k - 1);
      XorHalves(a, b);
    }
  }

  lemma {:induction false} WeightOfXor(a: nat, b: nat)
    ensures Weight(Xor(a, b)) % 2 == (Weight(a) + Weight(b)) % 2
    decreases a + b
  {
    if a > 0 || b > 0 {
      WeightOfXor(a / 2, b / 2);
      XorUnfold(a, b);
      WeightUnfold(a);
      WeightUnfold(b);
      ParityStep(a % 2, b % 2, Weight(a / 2), Weight(b / 2), Weight(Xor(a / 2, b / 2)));
    }
  }

  lemma ParityStep(x: nat, y: nat, p: nat, q: nat, r: nat)
    requires x <= 1 && y <= 1
    requires r % 2 == (p + q) % 2
    ensures ((if x == y then 0 else 1) + r) % 2 == (x + p + (y + q)) % 2
  {
  }

  lemma WeightUnfold(n: nat)
    ensures Weight(n) == n % 2 + Weight(n / 2)
  {
  }

  lemma {:induction false} XorCommutes(a: nat, b: nat)
    ensures Xor(a, b) == Xor(b, a)
    decreases a + b
  {
    if a > 0 || b > 0 {
      XorCommutes(a / 2, b / 2);
    }
  }

  lemma {:induction false} XorTriangle(a: nat, b: nat, c: nat)
    ensures Weight(Xor(a, c)) <= Weight(Xor(a, b)) + Weight(Xor(b, c))
    decreases a + b + c
  {
    if a > 0 || b > 0 || c > 0 {
      XorTriangle(a / 2, b / 2, c / 2);
      XorUnfold(a, b);
      XorUnfold(b, c);
      XorUnfold(a, c);
    }
  }

  lemma XorUnfold(a: nat, b: nat)
    ensures Weight(Xor(a, b)) == LowXor(a, b) + Weight(Xor(a / 2, b / 2))
  {
    XorHalves(a, b);
    WeightUnfold(Xor(a, b));
  }

  lemma XorHalves(a: nat, b: nat)
    ensures Xor(a, b) % 2 == LowXor(a, b)
    ensures Xor(a, b) / 2 == Xor(a / 2, b / 2)
  {
  }

  lemma {:induction false} XorZeroIffEqual(a: nat, b: nat)
    ensures Weight(Xor(a, b)) == 0 <==> a == b
    decreases a + b
  {
    if a > 0 || b > 0 {
      XorZeroIffEqual(a / 2, b / 2);
      XorUnfold(a, b);
    }
  }

  function XorByte(a: byte, b: byte): byte {
    Pow2Values();
    XorInRange(a, b, 8);
    Xor(a, b)
  }

  /** Bytewise exclusive or of two buffers of one length. */
  function XorBytes(x: seq<byte>, y: seq<byte>): (z: seq<byte>)
    requires |x| == |y|
    ensures |z| == |x|
    ensures forall i :: 0 <= i < |z| ==> z[i] == XorByte(x[i], y[i])
  {
    seq(|x|, i requires 0 <= i < |x| => XorByte(x[i], y[i]))
  }

  // ----- counting ones

  /** Bits 0 to `width - 1` of `n`, added up. */
  function BitSum(n: nat, width: nat): nat {
    if width == 0 then 0 else BitSum(n, width - 1) + Bit(n, width - 1)
  }

  lemma {:induction false} BitSumHalf(n: nat, width: nat)
    ensures BitSum(n, width + 1) == n % 2 + BitSum(n / 2, width)
  {
    if width == 0 {
      assert BitSum(n, 1) == BitSum(n, 0) + Bit(n, 0);
    } else {
      BitSumHalf(n, width - 1);
      assert Bit(n, width) == Bit(n / 2, width - 1);
    }
  }

  lemma {:induction false} BitSumIsWeight(n: nat, width: nat)
    requires n < Pow2(width)
    ensures BitSum(n, width) == Weight(n)
  {
    if width > 0 {
      BitSumIsWeight(n / 2, width - 1);
      BitSumHalf(n, width - 1);
      WeightUnfold(n);
    }
  }

  /** The places below `width` at which `n` has the binary digit one, each marked with `k`. */
  ghost function OnesAt(k: nat, n: nat, width: nat): set<(nat, nat)> {
    set b: nat | b < width && n / Pow2(b) % 2 == 1 :: (k, b)
  }

  lemma {:induction false} CountOnesAt(k: nat, n: nat, width: nat)
    ensures |OnesAt(k, n, width)| == BitSum(n, width)
  {
    hide Bit;
    if width == 0 {
      assert OnesAt(k, n, 0) == {};
    } else {
      var b := width - 1;
      CountOnesAt(k, n, b);
      BitIsDigit(n, b);
      assert OnesAt(k, n, width) == OnesAt(k, n, b) + if n / Pow2(b) % 2 == 1 then {(k, b)} else {};
    }
  }

  /** The places, byte and bit, at which bytes `lo` to `hi - 1` of `buf` have the binary digit
      one. */
  ghost function OneBits(buf: seq<byte>, lo: nat, hi: nat): set<(nat, nat)> {
    set k: nat, b: nat | lo <= k < hi && k < |buf| && b < 8 && buf[k] / Pow2(b) % 2 == 1 :: (k, b)
  }

  lemma NoOneBits(buf: seq<byte>, lo: nat)
    ensures |OneBits(buf, lo, lo)| == 0
  {
    assert OneBits(buf, lo, lo) == {};
  }

  lemma OneBitsStep(buf: seq<byte>, lo: nat, hi: nat)
    requires lo <= hi
    ensures |OneBits(buf, lo, hi + 1)|
         == |OneBits(buf, lo, hi)| + if hi < |buf| then Weight(buf[hi]) else 0
  {
    hide OneBits, OnesAt, Weight, BitSum, Pow2;
    if hi < |buf| {
      OneBitsSplit(buf, lo, hi);
      CountOnesAt(hi, buf[hi], 8);
      Pow2Values();
      BitSumIsWeight(buf[hi], 8);
    } else {
      OneBitsBeyond(buf, lo, hi);
    }
  }

  lemma OneBitsSplit(buf: seq<byte>, lo: nat, hi: nat)
    requires lo <= hi < |buf|
    ensures OneBits(buf, lo, hi + 1) == OneBits(buf, lo, hi) + OnesAt(hi, buf[hi], 8)
    ensures OneBits(buf, lo, hi) !! OnesAt(hi, buf[hi], 8)
  {
    hide Pow2;
  }

  lemma OneBitsBeyond(buf: seq<byte>, lo: nat, hi: nat)
    requires |buf| <= hi
    ensures OneBits(buf, lo, hi + 1) == OneBits(buf, lo, hi)
  {
    hide Pow2;
  }

  // ----- big-endian byte strings

  function Pow256(n: nat): (p: nat)
    ensures p > 0
  {
    if n == 0 then 1 else 256 * Pow256(n - 1)
  }

  lemma Pow256Values()
    ensures Pow256(1) == 0x100
    ensures Pow256(2) == 0x1_0000
    ensures Pow256(4) == 0x1_0000_0000
    ensures Pow256(8) == 0x1_0000_0000_0000_0000
  {
    assert Pow256(2) == 0x1_0000;
    assert Pow256(4) == 0x1_0000_0000;
    assert Pow256(6) == 0x1_0000_0000_0000;
    assert Pow256(8) == 0x1_0000_0000_0000_0000;
  }

  /** The low `n` bytes of `v`, most significant first: network order. */
  function ToBE(v: nat, n: nat): (s: seq<byte>)
    ensures |s| == n
    decreases n
  {
    if n == 0 then [] else ToBE(v / 256, n - 1) + [v % 256]
  }

  /** Byte `i` is the digit of `v` in base 256 at place `n - 1 - i`: the most significant comes
      first. */
  lemma {:induction false} ToBEDigits(v: nat, n: nat, i: nat)
    requires i < n
    ensures ToBE(v, n)[i] == v / Pow256(n - 1 - i) % 256
    decreases n
  {
    if i < n - 1 {
      ToBEDigits(v / 256, n - 1, i);
      DivideTwice(v, 256, Pow256(n - 2 - i));
    }
  }

  function FromBE(s: seq<byte>): (v: nat)
    ensures v < Pow256(|s|)
  {
    if s == [] then 0 else FromBE(s[..|s| - 1]) * 256 + s[|s| - 1]
  }

  lemma {:induction false} FromToBE(v: nat, n: nat)
    requires v < Pow256(n)
    ensures FromBE(ToBE(v, n)) == v
  {
    if n > 0 {
      FromToBE(v / 256, n - 1);
      assert ToBE(v, n)[..n - 1] == ToBE(v / 256, n - 1);
    }
  }

  lemma {:induction false} ToFromBE(s: seq<byte>)
    ensures ToBE(FromBE(s), |s|) == s
  {
    if s != [] {
      ToFromBE(s[..|s| - 1]);
      assert s == s[..|s| - 1] + [s[|s| - 1]];
    }
  }

  // ----- overwriting part of a buffer

  /** `s` with the bytes from `at` on replaced by `part`. */
  function Splice<T>(s: seq<T>, at: nat, part: seq<T>): (r: seq<T>)
    requires at + |part| <= |s|
    ensures |r| == |s|
  {
    s[..at] + part + s[at + |part|..]
  }

  /** Two adjacent overwrites are one. */
  lemma SpliceAdjacent<T>(s: seq<T>, at: nat, a: seq<T>, b: seq<T>)
    requires at + |a| + |b| <= |s|
    ensures Splice(Splice(s, at, a), at + |a|, b) == Splice(s, at, a + b)
  {
    var t := Splice(s, at, a);
    assert t[..at + |a|] == s[..at] + a;
    assert t[at + |a| + |b|..] == s[at + |a| + |b|..];
  }
}
