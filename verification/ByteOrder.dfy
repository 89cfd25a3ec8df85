/** Byte order conversion (byte_order.c).

    A value sits in memory in the order of the host. `NetworkOrder` is the conversion the C
    code writes out once per width; it is its own inverse, and what it leaves in memory is the
    big-endian byte string on either kind of host.
 */
module ByteOrder {
  import opened Bytes

  datatype Endianness = LittleEndian | BigEndian

  function Reversed(s: seq<byte>): (r: seq<byte>)
    ensures |r| == |s|
    ensures forall i :: 0 <= i < |s| ==> r[i] == s[|s| - 1 - i]
  {
    seq(|s|, i requires 0 <= i < |s| => s[|s| - 1 - i])
  }

  /** The bytes a host of order `e` keeps in memory for the `n`-byte value `v`. */
  function InMemory(e: Endianness, v: nat, n: nat): (s: seq<byte>)
    ensures |s| == n
  {
    if e.BigEndian? then ToBE(v, n) else Reversed(ToBE(v, n))
  }

  /** The value that a host of order `e` sees in those bytes. */
  function FromMemory(e: Endianness, s: seq<byte>): nat {
    if e.BigEndian? then FromBE(s) else FromBE(Reversed(s))
  }

  /** The value `hton*`/`ntoh*` returns for the `n`-byte value `v`. */
  function Swapped(e: Endianness, v: nat, n: nat): (r: nat)
    ensures v < Pow256(n) ==> r < Pow256(n)
  {
    if e.BigEndian? then v else FromBE(InMemory(e, v, n))
  }

  /** Where a host keeps the digits of a value in base 256: at place `i` the one of weight 256^i if
      it is little-endian, the `i`-th from the top if it is big-endian. */
  lemma InMemoryDigits(e: Endianness, v: nat, n: nat, i: nat)
    requires i < n
    ensures InMemory(e, v, n)[i] == v / Pow256(if e.LittleEndian? then i else n - 1 - i) % 256
  {
    hide ToBE;
    ToBEDigits(v, n, if e.LittleEndian? then n - 1 - i else i);
  }

  /** Conversion turns the digits around on a little-endian host and does nothing on a big-endian
      one. */
  lemma SwappedDigits(e: Endianness, v: nat, n: nat, i: nat)
    requires i < n && v < Pow256(n)
    ensures Swapped(e, v, n) / Pow256(i) % 256
         == v / Pow256(if e.LittleEndian? then n - 1 - i else i) % 256
  {
    hide ToBE, FromBE;
    if e.LittleEndian? {
      var mem := InMemory(e, v, n);
      ToFromBE(mem);
      ToBEDigits(FromBE(mem), n, n - 1 - i);
      InMemoryDigits(e, v, n, n - 1 - i);
    }
  }

  lemma SwappedAllDigits(e: Endianness, v: nat, n: nat)
    requires v < Pow256(n)
    ensures forall i :: 0 <= i < n ==>
      Swapped(e, v, n) / Pow256(i) % 256 == v / Pow256(if e.LittleEndian? then n - 1 - i else i) % 256
  {
    hide Swapped, Pow256;
    forall i | 0 <= i < n {
      SwappedDigits(e, v, n, i);
    }
  }

  /** A converted value is laid out most significant byte first, whatever the host. */
  lemma SwappedInMemoryIsBigEndian(e: Endianness, v: nat, n: nat)
    ensures InMemory(e, Swapped(e, v, n), n) == ToBE(v, n)
  {
    if e.LittleEndian? {
      var mem := InMemory(e, v, n);
      ToFromBE(mem);
      assert Reversed(mem) == ToBE(v, n);
    }
  }

  /** Reading big-endian bytes as a host value and converting gives the value back. */
  lemma SwappedFromMemoryIsValue(e: Endianness, s: seq<byte>)
    ensures Swapped(e, FromMemory(e, s), |s|) == FromBE(s)
  {
    if e.LittleEndian? {
      ToFromBE(Reversed(s));
      assert InMemory(e, FromMemory(e, s), |s|) == s;
    }
  }

  /** `ntoh` undoes `hton`: the C code uses one routine for both. */
  lemma SwappedTwice(e: Endianness, v: nat, n: nat)
    requires v < Pow256(n)
    ensures Swapped(e, Swapped(e, v, n), n) == v
  {
    if e.LittleEndian? {
      SwappedInMemoryIsBigEndian(e, v, n);
      FromToBE(v, n);
    }
  }

  /** A value written by one host and read by another survives, whatever the two orders are. */
  lemma AcrossHosts(writer: Endianness, reader: Endianness, v: nat, n: nat)
    requires v < Pow256(n)
    ensures Swapped(reader, FromMemory(reader, InMemory(writer, Swapped(writer, v, n), n)), n) == v
  {
    SwappedInMemoryIsBigEndian(writer, v, n);
    SwappedFromMemoryIsValue(reader, ToBE(v, n));
    FromToBE(v, n);
  }

  /** The conversion loop: the accumulator is shifted up by a byte in a word of `n` bytes. */
  method NetworkOrder(e: Endianness, src: nat, n: nat) returns (dst: nat)
    requires src < Pow256(n)
    ensures dst == Swapped(e, src, n)
    ensures dst < Pow256(n)
    ensures forall i :: 0 <= i < n ==>
      dst / Pow256(i) % 256 == src / Pow256(if e.LittleEndian? then n - 1 - i else i) % 256
  {
    hide Pow256, FromBE, ToBE;
    SwappedAllDigits(e, src, n);
    if e == LittleEndian {
      var tmp := InMemory(e, src, n);
      dst := 0;
      var i := 0;
      EmptyIsZero(tmp[..0]);
      while i < n
        invariant 0 <= i <= n
        invariant dst == FromBE(tmp[..i])
      {
        OneByteMore(tmp, i);
        Pow256Grows(i + 1, n);
        NoOverflow(dst * 256 + tmp[i], Pow256(n));
        dst := (dst * 256 + tmp[i]) % Pow256(n);
        i := i + 1;
      }
      assert tmp[..n] == tmp;
    } else {
      dst := src;
    }
  }

  lemma EmptyIsZero(s: seq<byte>)
    requires s == []
    ensures FromBE(s) == 0
  {
  }

  lemma OneByteMore(s: seq<byte>, i: nat)
    requires i < |s|
    ensures FromBE(s[..i + 1]) == FromBE(s[..i]) * 256 + s[i] < Pow256(i + 1)
  {
    assert s[..i + 1][..i] == s[..i];
  }

  lemma NoOverflow(v: nat, modulus: nat)
    requires v < modulus
    ensures v % modulus == v
  {
  }

  lemma {:induction false} Pow256Grows(m: nat, n: nat)
    requires m <= n
    ensures Pow256(m) <= Pow256(n)
    decreases n - m
  {
    if m < n {
      Pow256Grows(m + 1, n);
    }
  }
}
