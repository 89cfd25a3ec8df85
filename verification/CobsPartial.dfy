/** Recovering the start of a damaged frame (cobs_partial_decode).

    The routine ends every block with a zero: the test that should leave out the zero of a full
    block compares a byte with 0x255, which no byte equals. It is therefore right exactly as long
    as the request ends before a full block does, or only zeros follow that block: always for
    requests of up to 254 bytes, and wrong for some frame at every longer request.
 */
module CobsPartial {
  import opened Bytes
  import opened CobsBlocks
  import opened CobsLengths
  import Cobs

  /** Whether the request was met, and the bytes stored on the way. */
  datatype Partial = Partial(ok: bool, stored: seq<byte>)

  function CopyCount(s: seq<byte>, want: nat): nat
    requires s != [] && s[0] != 0
  {
    Min(s[0] - 1, Min(|s| - 1, want))
  }

  function Blocks(s: seq<byte>, want: nat): (p: Partial)
    ensures |p.stored| <= want
    ensures p.ok ==> s == [] || |p.stored| == want
    decreases |s|
  {
    if s == [] || want == 0 then Partial(true, [])
    else if s[0] == 0 then Partial(false, [])
    else
      var n := CopyCount(s, want);
      var data, rest := s[1..n + 1], s[n + 1..];
      if n == want then Partial(true, data)
      else if rest == [] then Partial(false, data)
      else
        var tail := Blocks(rest, want - n - 1);
        Partial(tail.ok, data + [0] + tail.stored)
  }

  function PartialDecode(s: seq<byte>, want: nat): (p: Partial)
    ensures |p.stored| <= want
    ensures p.ok ==> |p.stored| == want
  {
    if |s| < want then Partial(false, []) else Blocks(s, want)
  }

  /** One round of the outer loop, starting at a non-zero length byte. `slen` and `dlen` count
      down what is left of the source and of the request. */
  method PartialBlockAt(src: seq<byte>, at: nat, dst: array<byte>, out: nat, dlen: nat,
                        ghost was: seq<byte>, ghost stored: seq<byte>, ghost goal: Partial)
    returns (failed: bool, next: nat, end: nat, left: nat, ghost produced: seq<byte>)
    requires at < |src| && src[at] != 0 && dlen > 0
    requires Continues(src[at..], dlen, stored, goal)
    requires out == |stored| && out + dlen <= dst.Length
    requires Cobs.Decoding(dst[..], was, stored)
    modifies dst
    ensures at < next <= |src| && end == |produced| && left < dlen + 1 && end + left == out + dlen
    ensures Cobs.Decoding(dst[..], was, produced)
    ensures failed ==> !goal.ok && produced == goal.stored
    ensures !failed ==> Continues(src[next..], left, produced, goal)
    ensures !failed && next == |src| ==> left == 0
  {
    hide Continues, Blocks, Cobs.Decoding;
    var slen := |src| - at - 1;
    var n: nat := Min(src[at] - 1, Min(slen, dlen));
    ContinuesStepAt(src, at, dlen, stored, goal, n);
    next, end, left := at + 1 + n, out + n, dlen - n;
    Cobs.CopyBytes(src, at + 1, n, dst, out, was, stored);
    produced := stored + src[at + 1..next];
    failed := next == |src| && left > 0;
    if !failed && left > 0 {
      Cobs.StoreZero(dst, end, was, produced);
      end, left := end + 1, left - 1;
      produced := produced + [0];
    }
  }

  /** cobs_partial_decode. */
  method CobsPartialDecode(src: seq<byte>, dst: array<byte>, want: nat) returns (got: nat)
    requires want <= dst.Length
    modifies dst
    ensures var p := PartialDecode(src, want);
      && got == (if p.ok then want else 0)
      && dst[..] == Cobs.Overwritten(old(dst[..]), p.stored)
  {
    if |src| < want {
      return 0;
    }
    var at: nat, out: nat, dlen: nat, failed := 0, 0, want, false;
    ghost var was := dst[..];
    ghost var stored: seq<byte> := [];
    ghost var goal := Blocks(src, want);
    assert src[0..] == src && [] + goal.stored == goal.stored;
    while at < |src| && dlen > 0
      invariant at <= |src| && out == |stored| && out + dlen == want
      invariant at == |src| ==> dlen == 0
      invariant Continues(src[at..], dlen, stored, goal)
      invariant Cobs.Decoding(dst[..], was, stored)
    {
      if src[at] == 0 {
        assert stored + [] == stored;
        return 0;
      }
      failed, at, out, dlen, stored := PartialBlockAt(src, at, dst, out, dlen, was, stored, goal);
      if failed {
        return 0;
      }
    }
    assert stored + [] == stored;
    got := want;
  }

  /** What has been stored, followed by what the rest of the source gives, is the whole answer. */
  ghost predicate Continues(rest: seq<byte>, want: nat, stored: seq<byte>, goal: Partial) {
    var p := Blocks(rest, want);
    p.ok == goal.ok && stored + p.stored == goal.stored
  }

  lemma ContinuesStep(rest: seq<byte>, want: nat, stored: seq<byte>, goal: Partial, n: nat)
    requires rest != [] && want > 0 && rest[0] != 0
    requires Continues(rest, want, stored, goal)
    requires n == CopyCount(rest, want)
    ensures n == want ==> Continues(rest[n + 1..], 0, stored + rest[1..n + 1], goal)
    ensures n < want && rest[n + 1..] == [] ==>
      !goal.ok && stored + rest[1..n + 1] == goal.stored
    ensures n < want && rest[n + 1..] != [] ==>
      Continues(rest[n + 1..], want - n - 1, stored + rest[1..n + 1] + [0], goal)
  {
    var data := rest[1..n + 1];
    if n == want {
      assert stored + data + [] == stored + data;
    } else if rest[n + 1..] != [] {
      var tail := Blocks(rest[n + 1..], want - n - 1);
      assert stored + (data + [0] + tail.stored) == stored + data + [0] + tail.stored;
    }
  }

  lemma ContinuesStepAt(src: seq<byte>, at: nat, want: nat, stored: seq<byte>, goal: Partial, n: nat)
    requires at < |src| && src[at] != 0 && want > 0
    requires Continues(src[at..], want, stored, goal)
    requires n == Min(src[at] - 1, Min(|src| - at - 1, want))
    ensures var next := at + 1 + n;
      && next <= |src|
      && (n == want ==> Continues(src[next..], 0, stored + src[at + 1..next], goal))
      && (n < want && next == |src| ==> !goal.ok && stored + src[at + 1..next] == goal.stored)
      && (n < want && next < |src| ==>
            Continues(src[next..], want - n - 1, stored + src[at + 1..next] + [0], goal))
  {
    var rest := src[at..];
    ContinuesStep(rest, want, stored, goal, n);
    assert rest[1..n + 1] == src[at + 1..at + 1 + n];
    assert rest[n + 1..] == src[at + 1 + n..];
  }

  // ----- what it recovers

  lemma PrefixSlice(s: seq<byte>, w: seq<byte>, m: nat, a: nat, b: nat)
    requires a <= b <= m <= |s| && m <= |w| && s[..m] == w[..m]
    ensures s[a..b] == w[a..b]
  {
    assert s[a..b] == s[..m][a..b];
    assert w[a..b] == w[..m][a..b];
  }

  /** One step into a buffer that starts like a frame. */
  lemma RecoverStep(d: Block, w: seq<byte>, s: seq<byte>, want: nat)
    requires ValidBlock(d) && 0 < want < |s| && want < |WireBlock(d) + w|
    requires s[..want + 1] == (WireBlock(d) + w)[..want + 1]
    ensures s[0] == |d| + 1 && CopyCount(s, want) == Min(|d|, want)
    ensures want <= |d| ==> s[1..want + 1] == d[..want]
    ensures |d| < want ==> s[1..|d| + 1] == d
    ensures |d| < want ==> s[|d| + 1..][..want - |d|] == w[..want - |d|]
  {
    var v, n := WireBlock(d) + w, |d|;
    PrefixSlice(s, v, want + 1, 0, 1);
    assert s[0] == s[0..1][0] && v[0] == v[0..1][0];
    if want <= n {
      PrefixSlice(s, v, want + 1, 1, want + 1);
      assert v[1..want + 1] == d[..want];
    } else {
      PrefixSlice(s, v, want + 1, 1, n + 1);
      assert v[1..n + 1] == d;
      PrefixSlice(s, v, want + 1, n + 1, want + 1);
      assert v[n + 1..want + 1] == w[..want - n];
      assert s[n + 1..][..want - n] == s[n + 1..want + 1];
    }
  }

  /** What the routine makes of a length byte and any bytes behind it, zeros among them or not, and
      of a zero in the place of a length byte. */
  lemma PartialCounted(d: seq<byte>, s: seq<byte>, want: nat)
    requires |d| <= FULL && 0 < want
    ensures want <= |d| ==> Blocks([|d| + 1] + d + s, want) == Partial(true, d[..want])
    ensures |d| < want && s == [] ==> Blocks([|d| + 1] + d + s, want) == Partial(false, d)
    ensures |d| < want && s != [] ==>
      var tail := Blocks(s, want - |d| - 1);
      Blocks([|d| + 1] + d + s, want) == Partial(tail.ok, d + [0] + tail.stored)
    ensures Blocks([0] + s, want) == Partial(false, [])
  {
    hide Blocks;
    var t := [|d| + 1] + d + s;
    BlocksUnfold(t, want);
    ZeroStops([0] + s, want);
    if want <= |d| {
      assert t[1..want + 1] == d[..want];
    } else {
      assert t[1..|d| + 1] == d && t[|d| + 1..] == s;
    }
  }

  lemma ZeroStops(s: seq<byte>, want: nat)
    requires s != [] && s[0] == 0 && want > 0
    ensures Blocks(s, want) == Partial(false, [])
  {
  }

  /** A source no longer than the request never meets it. */
  lemma {:induction false} TooShort(s: seq<byte>, want: nat)
    requires 0 < |s| <= want
    ensures !Blocks(s, want).ok
    decreases |s|
  {
    if s[0] != 0 {
      var n := CopyCount(s, want);
      if s[n + 1..] != [] {
        TooShort(s[n + 1..], want - n - 1);
      }
    }
  }

  /** A longer one without zeros always does. */
  lemma {:induction false} LongEnough(s: seq<byte>, want: nat)
    requires ZeroFree(s) && want < |s|
    ensures Blocks(s, want).ok
    decreases |s|
  {
    if want > 0 {
      var n := CopyCount(s, want);
      if n < want {
        LongEnough(s[n + 1..], want - n - 1);
      }
    }
  }

  lemma BlocksUnfold(s: seq<byte>, want: nat)
    requires s != [] && s[0] != 0 && want > 0
    ensures var n := CopyCount(s, want);
      var data, rest := s[1..n + 1], s[n + 1..];
      Blocks(s, want)
      == if n == want then Partial(true, data)
         else if rest == [] then Partial(false, data)
         else Partial(Blocks(rest, want - n - 1).ok, data + [0] + Blocks(rest, want - n - 1).stored)
  {
  }

  /** A source one byte short gives all but the last byte and then fails. */
  lemma {:induction false} OneShort(s: seq<byte>)
    requires ZeroFree(s) && s != []
    ensures Blocks(s, |s|) == Partial(false, Blocks(s, |s| - 1).stored)
    decreases |s|
  {
    hide Blocks;
    var n := CopyCount(s, |s|);
    var rest := s[n + 1..];
    BlocksUnfold(s, |s|);
    if rest == [] {
      if |s| == 1 {
        NothingWanted(s);
      } else {
        BlocksUnfold(s, |s| - 1);
      }
    } else {
      BlocksUnfold(s, |s| - 1);
      OneShort(rest);
    }
  }

  /** What becomes of any request on a source without zeros, which is what the reader hands over:
      it is met exactly if the source is longer, or nothing is wanted. If the lengths are equal, the
      bytes before the last are stored all the same. */
  lemma PartialDecodeMet(s: seq<byte>, want: nat)
    requires ZeroFree(s)
    ensures PartialDecode(s, want).ok <==> want == 0 || want < |s|
    ensures |s| == want > 0 ==> PartialDecode(s, want).stored == PartialDecode(s, want - 1).stored
    ensures |s| < want ==> PartialDecode(s, want).stored == []
  {
    hide Blocks;
    if want < |s| {
      LongEnough(s, want);
    } else if 0 < want == |s| {
      TooShort(s, want);
      OneShort(s);
    } else if want == 0 {
      NothingWanted(s);
    }
  }

  /** What the routine makes of blocks: each is ended by a zero, full or not. */
  function Stuffed(bs: seq<Block>): seq<byte> {
    if bs == [] then [] else bs[0] + [0] + Stuffed(bs[1..])
  }

  lemma {:induction false} StuffedLength(bs: seq<Block>)
    requires ValidBlocks(bs)
    ensures |Stuffed(bs)| == |Wire(bs)|
  {
    if bs != [] {
      StuffedLength(bs[1..]);
    }
  }

  lemma BlocksStep(s: seq<byte>, want: nat, d: Block, rest: Partial)
    requires s != [] && want > 0 && s[0] == |d| + 1 && CopyCount(s, want) == Min(|d|, want)
    requires want <= |d| ==> s[1..want + 1] == d[..want]
    requires |d| < want ==> |d| + 1 < |s| && s[1..|d| + 1] == d
    requires |d| < want ==> Blocks(s[|d| + 1..], want - |d| - 1) == rest
    ensures want <= |d| ==> Blocks(s, want) == Partial(true, d[..want])
    ensures |d| < want ==> Blocks(s, want) == Partial(rest.ok, d + [0] + rest.stored)
  {
  }

  /** The start of `d`, a zero and `y`. */
  lemma StuffedPrefix(d: Block, y: seq<byte>, want: nat)
    requires want <= |d + [0] + y|
    ensures want <= |d| ==> (d + [0] + y)[..want] == d[..want]
    ensures |d| < want ==>
      want - |d| - 1 <= |y| && (d + [0] + y)[..want] == d + [0] + y[..want - |d| - 1]
  {
  }

  lemma WireSplitsOff(bs: seq<Block>)
    requires ValidBlocks(bs) && bs != []
    ensures ValidBlocks(bs[1..])
    ensures Wire(bs) + [0] == WireBlock(bs[0]) + (Wire(bs[1..]) + [0])
    ensures |WireBlock(bs[0])| == |bs[0]| + 1
  {
  }

  /** A buffer that starts like the frame of `bs` yields the start of the stuffed blocks. */
  lemma {:induction false} RecoverBlocks(bs: seq<Block>, s: seq<byte>, want: nat)
    requires ValidBlocks(bs)
    requires want < |s| && want < |Wire(bs) + [0]|
    requires s[..want + 1] == (Wire(bs) + [0])[..want + 1]
    ensures want <= |Stuffed(bs)| && Blocks(s, want) == Partial(true, Stuffed(bs)[..want])
    decreases |bs|
  {
    hide Wire, WireBlock, Blocks, CopyCount;
    StuffedLength(bs);
    if want == 0 {
      NothingWanted(s);
    } else {
      if bs == [] {
        EmptyWire();
      }
      var d, rest := bs[0], bs[1..];
      WireSplitsOff(bs);
      StuffedPrefix(d, Stuffed(rest), want);
      RecoverStep(d, Wire(rest) + [0], s, want);
      if |d| < want {
        RecoverBlocks(rest, s[|d| + 1..], want - |d| - 1);
        BlocksStep(s, want, d, Partial(true, Stuffed(rest)[..want - |d| - 1]));
      } else {
        BlocksStep(s, want, d, Partial(true, []));
      }
    }
  }

  lemma NothingWanted(s: seq<byte>)
    ensures Blocks(s, 0) == Partial(true, [])
  {
  }

  lemma EmptyWire()
    ensures Wire([]) == []
  {
  }

  // ----- when that is right

  /** Equal fronts cancel. */
  lemma CancelFront(a: seq<byte>, x: seq<byte>, y: seq<byte>, k: nat)
    requires |a| <= k <= |a + x| && k <= |a + y|
    ensures (a + x)[..k] == (a + y)[..k] <==> x[..k - |a|] == y[..k - |a|]
  {
    assert (a + x)[..k] == a + x[..k - |a|];
    assert (a + y)[..k] == a + y[..k - |a|];
    assert (a + x)[..k][|a|..] == x[..k - |a|];
    assert (a + y)[..k][|a|..] == y[..k - |a|];
  }

  predicate ZerosFrom(x: seq<byte>, from: nat, to: nat)
    requires to <= |x|
  {
    forall i :: from <= i < to ==> x[i] == 0
  }

  lemma ZerosAfter(a: seq<byte>, x: seq<byte>, from: nat, to: nat)
    requires |a| <= from && to <= |a + x|
    ensures ZerosFrom(a + x, from, to) <==> to <= |a| || ZerosFrom(x, from - |a|, to - |a|)
  {
    if ZerosFrom(a + x, from, to) && |a| < to {
      forall i | from - |a| <= i < to - |a|
        ensures x[i] == 0
      {
        assert (a + x)[|a| + i] == x[i];
      }
    }
  }

  lemma MeaningFirst(bs: seq<Block>)
    requires ValidBlocks(bs) && bs != []
    ensures |Stuffed(bs)| > 0 && |Meaning(bs)| > 0
    ensures bs[0] != [] ==> Meaning(bs)[0] != 0
    ensures bs[0] == [] ==>
      Meaning(bs) == [0] + Meaning(bs[1..]) && Stuffed(bs) == [0] + Stuffed(bs[1..])
  {
    hide Meaning, Stuffed;
    var d := bs[0];
    MeaningUnfold(bs);
    if d == [] {
      assert [] + [0] == [0];
    } else if |d| == FULL {
      assert (d + Meaning(bs[1..]))[0] == d[0];
    } else {
      assert (d + [0] + Meaning(bs[1..]))[0] == d[0];
    }
  }

  /** Behind a zero too many, the stuffed blocks start as they should exactly while zeros are
      what is wanted. */
  lemma {:induction false} ShiftedRightIff(bs: seq<Block>, want: nat)
    requires ValidBlocks(bs) && want <= |Meaning(bs)|
    ensures |Stuffed(bs)| >= |Meaning(bs)|
    ensures ([0] + Stuffed(bs))[..want] == Meaning(bs)[..want] <==> ZerosFrom(Meaning(bs), 0, want)
    decreases |bs|
  {
    hide Wire, Stuffed, Meaning, ZerosFrom;
    StuffedLength(bs);
    MeaningFits(bs);
    if want == 0 {
      NoZeros(Meaning(bs), 0);
    } else if bs == [] {
      EmptyMeaning();
    } else {
      var rest := bs[1..];
      MeaningFirst(bs);
      if bs[0] == [] {
        ShiftedRightIff(rest, want - 1);
        CancelFront([0], [0] + Stuffed(rest), Meaning(rest), want);
        assert [0] + Stuffed(bs) == [0] + ([0] + Stuffed(rest));
        OneMoreZero(Meaning(rest), want);
      } else {
        FirstDiffers([0] + Stuffed(bs), Meaning(bs), want);
      }
    }
  }

  lemma NoZeros(x: seq<byte>, k: nat)
    requires k <= |x|
    ensures ZerosFrom(x, k, k)
  {
  }

  lemma EmptyMeaning()
    ensures Meaning([]) == []
  {
  }

  lemma OneMoreZero(x: seq<byte>, want: nat)
    requires 0 < want <= |[0] + x|
    ensures ZerosFrom([0] + x, 0, want) <==> ZerosFrom(x, 0, want - 1)
  {
    ZerosAfter([0], x, 1, want);
    assert ([0] + x)[0] == 0;
  }

  lemma FirstDiffers(x: seq<byte>, y: seq<byte>, want: nat)
    requires 0 < want <= |x| && want <= |y| && x[0] == 0 && y[0] != 0
    ensures x[..want] != y[..want] && !ZerosFrom(y, 0, want)
  {
    assert x[..want][0] == x[0] && y[..want][0] == y[0];
  }

  /** Where the first full block ends, in what the blocks stand for; behind it all if there is
      none. */
  function FirstFullEnd(bs: seq<Block>): nat {
    if bs == [] then 0
    else if |bs[0]| == FULL then FULL
    else |bs[0]| + 1 + FirstFullEnd(bs[1..])
  }

  lemma MeaningUnfold(bs: seq<Block>)
    requires ValidBlocks(bs) && bs != []
    ensures Stuffed(bs) == bs[0] + [0] + Stuffed(bs[1..])
    ensures |bs[0]| == FULL ==> Meaning(bs) == bs[0] + Meaning(bs[1..])
    ensures |bs[0]| < FULL ==> Meaning(bs) == bs[0] + [0] + Meaning(bs[1..])
  {
  }

  lemma SamePrefix(a: seq<byte>, x: seq<byte>, y: seq<byte>, k: nat)
    requires k <= |a|
    ensures (a + x)[..k] == (a + y)[..k]
  {
    assert (a + x)[..k] == a[..k] == (a + y)[..k];
  }

  /** The stuffed blocks start like what the blocks stand for exactly as long as nothing but zeros
      is wanted behind the first full block. */
  lemma {:induction false} StuffedRightIff(bs: seq<Block>, want: nat)
    requires ValidBlocks(bs) && want <= |Meaning(bs)|
    ensures |Stuffed(bs)| >= |Meaning(bs)|
    ensures Stuffed(bs)[..want] == Meaning(bs)[..want]
      <==> ZerosFrom(Meaning(bs), FirstFullEnd(bs), want)
    decreases |bs|
  {
    hide Wire, Stuffed, Meaning, ZerosFrom;
    StuffedLength(bs);
    MeaningFits(bs);
    if bs == [] {
      EmptyMeaning();
      NoZeros(Meaning(bs), 0);
    } else {
      var d, rest := bs[0], bs[1..];
      MeaningUnfold(bs);
      var st, me := Stuffed(rest), Meaning(rest);
      if |d| == FULL {
        var tail := [0] + st;
        assert d + [0] + st == d + tail;
        ZerosAfter(d, me, FULL, want);
        if want <= FULL {
          SamePrefix(d, tail, me, want);
        } else {
          ShiftedRightIff(rest, want - FULL);
          CancelFront(d, tail, me, want);
        }
      } else {
        var front := d + [0];
        ZerosAfter(front, me, FirstFullEnd(bs), want);
        if want <= |front| {
          SamePrefix(front, st, me, want);
        } else {
          StuffedRightIff(rest, want - |front|);
          CancelFront(front, st, me, want);
        }
      }
    }
  }

  /** 254 bytes other than zero end at `e`. */
  predicate LongRunEnds(x: seq<byte>, e: nat) {
    FULL <= e <= |x| && forall i :: e - FULL <= i < e ==> x[i] != 0
  }

  /** No such run reaches into a shorter block and its zero. */
  lemma LongRunAfter(d: Block, x: seq<byte>, e: nat)
    requires |d| < FULL
    ensures LongRunEnds(d + [0] + x, e) <==> |d| < e && LongRunEnds(x, e - |d| - 1)
  {
    var y := d + [0] + x;
    assert y[|d|] == 0;
    assert forall i :: 0 <= i < |x| ==> y[|d| + 1 + i] == x[i];
    if LongRunEnds(y, e) {
      forall i | e - |d| - 1 - FULL <= i < e - |d| - 1
        ensures x[i] != 0
      {
        assert y[|d| + 1 + i] != 0;
      }
    }
    if |d| < e && LongRunEnds(x, e - |d| - 1) {
      forall i | e - FULL <= i < e
        ensures y[i] != 0
      {
        assert x[i - |d| - 1] != 0;
      }
    }
  }

  /** The first full block ends where the first long run of the data does. */
  lemma {:induction false} FirstFullIsFirstRun(bs: seq<Block>, e: nat)
    requires ValidBlocks(bs)
    ensures LongRunEnds(Meaning(bs), e) ==> FirstFullEnd(bs) <= e
    ensures FirstFullEnd(bs) < |Meaning(bs)| ==> LongRunEnds(Meaning(bs), FirstFullEnd(bs))
  {
    hide LongRunEnds, Meaning, Stuffed;
    if bs == [] {
      EmptyMeaning();
    } else {
      var d, rest := bs[0], bs[1..];
      var me := Meaning(rest);
      MeaningUnfold(bs);
      if |d| == FULL {
        FullRun(d, me, e);
      } else {
        LongRunAfter(d, me, e);
        LongRunAfter(d, me, FirstFullEnd(bs));
        FirstFullIsFirstRun(rest, if e > |d| then e - |d| - 1 else 0);
      }
    }
  }

  lemma FullRun(d: Block, x: seq<byte>, e: nat)
    requires ValidBlock(d) && |d| == FULL
    ensures LongRunEnds(d + x, FULL) && (LongRunEnds(d + x, e) ==> FULL <= e)
  {
    assert forall i :: 0 <= i < FULL ==> (d + x)[i] == d[i];
  }

  /** `s` starts like a frame of `x`, as far as a request for `want` bytes needs to look. */
  predicate StartsLikeFrame(s: seq<byte>, x: seq<byte>, want: nat) {
    want <= |x| && want < |s| && want < |Encode(x)| && s[..want + 1] == Encode(x)[..want + 1]
  }

  /** Within the first `want` bytes of `x` only zeros follow 254 bytes other than zero. */
  ghost predicate OnlyZerosAfterLongRuns(x: seq<byte>, want: nat)
    requires want <= |x|
  {
    forall e: nat, i :: LongRunEnds(x, e) && e <= i < want ==> x[i] == 0
  }

  lemma LongRunInPrefix(x: seq<byte>, y: seq<byte>, want: nat, e: nat)
    requires want <= |x| && want <= |y| && x[..want] == y[..want] && e <= want
    ensures LongRunEnds(x, e) <==> LongRunEnds(y, e)
  {
    assert forall i :: 0 <= i < want ==> x[i] == x[..want][i] == y[i];
  }

  lemma SameCondition(x: seq<byte>, want: nat)
    requires want <= |x|
    ensures want <= |Padded(x)| && Padded(x)[..want] == x[..want]
    ensures ZerosFrom(Padded(x), FirstFullEnd(Split(x)), want) <==> OnlyZerosAfterLongRuns(x, want)
  {
    hide LongRunEnds, FirstFullEnd, Split, EndsOpen;
    var bs, y := Split(x), Padded(x);
    var end := FirstFullEnd(bs);
    MeaningOfSplit(x);
    assert y[..want] == x[..want];
    assert forall i :: 0 <= i < want ==> y[i] == x[i];
    FirstFullIsFirstRun(bs, 0);
    if OnlyZerosAfterLongRuns(x, want) && end < want {
      LongRunInPrefix(x, y, want, end);
    }
    if ZerosFrom(y, end, want) {
      forall e: nat, i | LongRunEnds(x, e) && e <= i < want
        ensures x[i] == 0
      {
        LongRunInPrefix(x, y, want, e);
        FirstFullIsFirstRun(bs, e);
      }
    }
  }

  /** For which data a request is met rightly, whatever its size and whatever happened to the rest
      of the frame. */
  lemma RecoveryRightIff(s: seq<byte>, x: seq<byte>, want: nat)
    requires StartsLikeFrame(s, x, want)
    ensures PartialDecode(s, want) == Partial(true, x[..want]) <==> OnlyZerosAfterLongRuns(x, want)
  {
    hide Blocks, Split, Wire, Stuffed, Meaning, FirstFullEnd, ZerosFrom, OnlyZerosAfterLongRuns, Padded;
    MeaningOfSplit(x);
    RecoverBlocks(Split(x), s, want);
    SameCondition(x, want);
    StuffedRightIff(Split(x), want);
  }

  /** Whatever happened to the rest of a frame, a request for up to 254 bytes is met with the
      first bytes of the data if the first bytes of the frame arrived intact. */
  lemma RecoverPrefix(s: seq<byte>, x: seq<byte>, want: nat)
    requires want <= FULL && StartsLikeFrame(s, x, want)
    ensures PartialDecode(s, want) == Partial(true, x[..want])
  {
    hide PartialDecode, StartsLikeFrame;
    assert want <= |x| by { WantWithin(s, x, want); }
    RecoveryRightIff(s, x, want);
  }

  lemma WantWithin(s: seq<byte>, x: seq<byte>, want: nat)
    requires StartsLikeFrame(s, x, want)
    ensures want <= |x|
  {
  }

  /** The law of partial decoding at request size `want`. */
  ghost predicate RecoversAll(want: nat) {
    forall s: seq<byte>, x: seq<byte> ::
      StartsLikeFrame(s, x, want) ==> PartialDecode(s, want) == Partial(true, x[..want])
  }

  /** The law holds exactly up to 254 bytes. */
  lemma RecoversAllIff(want: nat)
    ensures RecoversAll(want) <==> want <= FULL
  {
    hide PartialDecode;
    if want <= FULL {
      forall s: seq<byte>, x: seq<byte> | StartsLikeFrame(s, x, want)
        ensures PartialDecode(s, want) == Partial(true, x[..want])
      {
        RecoverPrefix(s, x, want);
      }
    } else {
      LongRunSpoiled(want);
    }
  }

  /** At every longer request a run of ones is given back spoiled. */
  lemma LongRunSpoiled(want: nat)
    requires want > FULL
    ensures var x := Ones(want);
      && StartsLikeFrame(Encode(x), x, want)
      && PartialDecode(Encode(x), want) != Partial(true, x[..want])
  {
    hide PartialDecode, Encode;
    var x := Ones(want);
    EncodedLength(x);
    RecoveryRightIff(Encode(x), x, want);
    assert LongRunEnds(x, FULL) && x[FULL] == 1;
  }
}
