/** Sets of segment numbers kept as sorted, merged intervals (section.c).

    A section is a list of pieces. As long as it is canonical, that is sorted with a gap between
    neighbours, it is determined by the set of its members; adding and deleting are union and
    difference. Bounds are 64-bit: `highBound + 1` wraps to zero on the largest number, and then
    adding zero spoils the list. `Wraps` is exactly that case.
 */
module Sections {
  import opened Bytes

  datatype Piece = Piece(low: uint64, high: uint64)

  predicate Canonical(p: seq<Piece>) {
    && (forall i :: 0 <= i < |p| ==> p[i].low <= p[i].high)
    && (forall i, j :: 0 <= i < j < |p| ==> p[i].high + 1 < p[j].low)
  }

  predicate Has(p: seq<Piece>, n: int) {
    exists i :: 0 <= i < |p| && p[i].low <= n <= p[i].high
  }

  ghost function Members(p: seq<Piece>): (s: set<nat>)
    ensures forall n: nat :: n in s <==> Has(p, n)
  {
    assert forall n :: Has(p, n) ==> 0 <= n < 0x1_0000_0000_0000_0000;
    set n: nat | 0 <= n < 0x1_0000_0000_0000_0000 && Has(p, n)
  }

  // ----- canonical form

  lemma FirstMember(p: seq<Piece>, n: int)
    requires Canonical(p) && Has(p, n)
    ensures p != [] && p[0].low <= n && Has(p, p[0].low)
  {
  }

  lemma TailMembers(p: seq<Piece>, n: int)
    requires Canonical(p) && p != []
    ensures Canonical(p[1..])
    ensures Has(p[1..], n) <==> Has(p, n) && n > p[0].high + 1
    ensures p[0].low <= n <= p[0].high ==> Has(p, n)
    ensures !Has(p, p[0].high + 1)
  {
    if Has(p, n) {
      var i :| 0 <= i < |p| && p[i].low <= n <= p[i].high;
      if i > 0 {
        assert p[1..][i - 1] == p[i];
      }
    }
    if Has(p[1..], n) {
      var i :| 0 <= i < |p[1..]| && p[1..][i].low <= n <= p[1..][i].high;
      assert p[i + 1] == p[1..][i];
    }
  }

  lemma SameFirstPiece(p: seq<Piece>, q: seq<Piece>)
    requires Canonical(p) && Canonical(q) && p != [] && q != []
    requires forall n :: Has(p, n) <==> Has(q, n)
    ensures p[0] == q[0]
  {
    assert Has(p, p[0].low) && Has(q, q[0].low);
    FirstMember(p, q[0].low);
    FirstMember(q, p[0].low);
    TailMembers(p, p[0].high + 1);
    TailMembers(q, q[0].high + 1);
    TailMembers(p, q[0].high + 1);
    TailMembers(q, p[0].high + 1);
  }

  /** The canonical piece list of a set is unique, so how it came about does not matter. */
  lemma {:induction false} CanonicalUnique(p: seq<Piece>, q: seq<Piece>)
    requires Canonical(p) && Canonical(q)
    requires forall n :: Has(p, n) <==> Has(q, n)
    ensures p == q
  {
    if p == [] {
      if q != [] {
        assert Has(q, q[0].low);
      }
    } else {
      assert Has(p, p[0].low);
      FirstMember(q, p[0].low);
      SameFirstPiece(p, q);
      forall n
        ensures Has(p[1..], n) <==> Has(q[1..], n)
      {
        TailMembers(p, n);
        TailMembers(q, n);
      }
      TailMembers(p, 0);
      TailMembers(q, 0);
      CanonicalUnique(p[1..], q[1..]);
      assert p == [p[0]] + p[1..] && q == [q[0]] + q[1..];
    }
  }

  // ----- where 64-bit bounds matter

  /** `n + 1` in 64 bits. */
  function Next64(n: uint64): uint64 {
    if n == UINT64_MAX then 0 else n + 1
  }

  /** Adding `num` meets a piece that ends at the largest number and takes zero for its
      successor. */
  predicate Wraps(p: seq<Piece>, num: uint64) {
    && num == 0 && p != []
    && p[0].low != 0 && p[|p| - 1].high == UINT64_MAX
    && (p[0].low != 1 || |p| == 1)
  }

  /** The largest number is never at fault on its own: without it in the list nothing wraps. */
  lemma NoWrapWithoutMax(p: seq<Piece>, num: uint64)
    requires Canonical(p) && !Has(p, UINT64_MAX)
    ensures !Wraps(p, num)
  {
    if p != [] {
      assert p[|p| - 1].low <= p[|p| - 1].high;
    }
  }

  /** The same condition said of the set: zero is added, the largest number is in, and either one
      is missing or everything but zero is in. */
  predicate SetWraps(s: set<nat>, num: uint64) {
    && num == 0 && 0 !in s && UINT64_MAX in s
    && (1 !in s || forall n :: 1 <= n <= UINT64_MAX ==> n in s)
  }

  lemma WrapsIff(p: seq<Piece>, num: uint64)
    requires Canonical(p)
    ensures Wraps(p, num) <==> SetWraps(Members(p), num)
  {
    var s := Members(p);
    if p != [] && num == 0 {
      var last := p[|p| - 1];
      assert Has(p, p[0].low) && Has(p, last.high);
      if UINT64_MAX in s {
        LastHoldsMax(p);
      }
      if p[0].low != 0 {
        NotBelowFirst(p, 0);
        if |p| == 1 {
          assert forall n: nat :: p[0].low <= n <= p[0].high ==> Has(p, n);
        } else {
          TailMembers(p, p[0].high + 1);
          assert p[0].high + 1 < p[1].low <= UINT64_MAX;
        }
        if 1 in s {
          FirstMember(p, 1);
        }
      }
    }
  }

  lemma LastHoldsMax(p: seq<Piece>)
    requires Canonical(p) && Has(p, UINT64_MAX)
    ensures p != [] && p[|p| - 1].high == UINT64_MAX
  {
    var i :| 0 <= i < |p| && p[i].low <= UINT64_MAX <= p[i].high;
    var last := p[|p| - 1];
    assert last.low <= last.high;
  }

  lemma NotBelowFirst(p: seq<Piece>, n: int)
    requires Canonical(p) && p != [] && n < p[0].low
    ensures !Has(p, n)
  {
    if Has(p, n) {
      FirstMember(p, n);
    }
  }

  // ----- the steps of add and delete

  lemma HasConcat(a: seq<Piece>, b: seq<Piece>, n: int)
    ensures Has(a + b, n) <==> Has(a, n) || Has(b, n)
  {
    var c := a + b;
    if Has(c, n) {
      var i :| 0 <= i < |c| && c[i].low <= n <= c[i].high;
      if i < |a| {
        assert a[i] == c[i];
      } else {
        assert b[i - |a|] == c[i];
      }
    }
    if Has(a, n) {
      var i :| 0 <= i < |a| && a[i].low <= n <= a[i].high;
      assert c[i] == a[i];
    }
    if Has(b, n) {
      var i :| 0 <= i < |b| && b[i].low <= n <= b[i].high;
      assert c[|a| + i] == b[i];
    }
  }

  lemma HasThree(a: seq<Piece>, x: seq<Piece>, b: seq<Piece>, n: int)
    ensures Has(a + x + b, n) <==> Has(a, n) || Has(x, n) || Has(b, n)
  {
    HasConcat(a + x, b, n);
    HasConcat(a, x, n);
  }

  lemma HasOne(x: Piece, n: int)
    ensures Has([x], n) <==> x.low <= n <= x.high
  {
    if x.low <= n <= x.high {
      assert [x][0] == x;
    }
  }

  lemma HasTwo(x: Piece, y: Piece, n: int)
    ensures Has([x, y], n) <==> x.low <= n <= x.high || y.low <= n <= y.high
  {
    assert [x, y] == [x] + [y];
    HasConcat([x], [y], n);
    HasOne(x, n);
    HasOne(y, n);
  }

  /** `mid` replaced by `new` between what is before and after it, the numbers gained or lost
      being those on which the two differ. */
  lemma Replace(a: seq<Piece>, mid: seq<Piece>, b: seq<Piece>, new_: seq<Piece>, n: int)
    ensures Has(mid, n) == Has(new_, n) ==> Has(a + mid + b, n) == Has(a + new_ + b, n)
    ensures Has(a + new_ + b, n) <==> Has(a, n) || Has(new_, n) || Has(b, n)
    ensures Has(a + mid + b, n) <==> Has(a, n) || Has(mid, n) || Has(b, n)
  {
    HasThree(a, mid, b, n);
    HasThree(a, new_, b, n);
  }

  /** Sorted lists joined with gaps are sorted. */
  lemma CanonicalThree(a: seq<Piece>, x: seq<Piece>, b: seq<Piece>)
    requires Canonical(a) && Canonical(x) && Canonical(b)
    requires forall i, j :: 0 <= i < |a| && 0 <= j < |x| ==> a[i].high + 1 < x[j].low
    requires forall i, j :: 0 <= i < |x| && 0 <= j < |b| ==> x[i].high + 1 < b[j].low
    requires forall i, j :: 0 <= i < |a| && 0 <= j < |b| ==> a[i].high + 1 < b[j].low
    ensures Canonical(a + x + b)
  {
  }

  ghost predicate Adds(q: seq<Piece>, p: seq<Piece>, num: uint64) {
    Canonical(q) && forall n :: Has(q, n) <==> Has(p, n) || n == num
  }

  ghost predicate Removes(q: seq<Piece>, p: seq<Piece>, num: uint64) {
    Canonical(q) && forall n :: Has(q, n) <==> Has(p, n) && n != num
  }

  lemma MergeUp(p: seq<Piece>, num: uint64, i: nat)
    requires Canonical(p) && i + 1 < |p| && p[i].high + 1 == num && p[i + 1].low == num + 1
    ensures Adds(p[..i] + [Piece(p[i].low, p[i + 1].high)] + p[i + 2..], p, num)
  {
    var x := Piece(p[i].low, p[i + 1].high);
    var q := p[..i] + [x] + p[i + 2..];
    assert p == p[..i] + [p[i], p[i + 1]] + p[i + 2..];
    CanonicalThree(p[..i], [x], p[i + 2..]);
    forall n
      ensures Has(q, n) <==> Has(p, n) || n == num
    {
      Replace(p[..i], [p[i], p[i + 1]], p[i + 2..], [x], n);
      HasTwo(p[i], p[i + 1], n);
      HasOne(x, n);
    }
  }

  /** `x` is `old_` with `num` besides, at one end. */
  predicate Grows(old_: Piece, x: Piece, num: uint64) {
    || (x == old_.(high := num) && old_.high + 1 == num)
    || (x == old_.(low := num) && old_.low == num + 1)
  }

  lemma ExtendHas(p: seq<Piece>, num: uint64, i: nat, x: Piece, n: int)
    requires i < |p| && p[i].low <= p[i].high && Grows(p[i], x, num)
    ensures Has(p[i := x], n) <==> Has(p, n) || n == num
  {
    hide Has;
    assert p == p[..i] + [p[i]] + p[i + 1..];
    assert p[i := x] == p[..i] + [x] + p[i + 1..];
    Replace(p[..i], [p[i]], p[i + 1..], [x], n);
    HasOne(p[i], n);
    HasOne(x, n);
  }

  /** One piece replaced by one that has `num` besides. */
  lemma Extend(p: seq<Piece>, num: uint64, i: nat, x: Piece)
    requires Canonical(p) && i < |p| && Grows(p[i], x, num)
    requires i > 0 ==> p[i - 1].high + 1 < x.low
    requires i + 1 < |p| ==> x.high + 1 < p[i + 1].low
    ensures Adds(p[i := x], p, num)
  {
    hide Has;
    forall n
      ensures Has(p[i := x], n) <==> Has(p, n) || n == num
    {
      ExtendHas(p, num, i, x, n);
    }
  }

  lemma Insert(p: seq<Piece>, num: uint64, index: nat)
    requires Canonical(p) && index <= |p|
    requires forall j :: 0 <= j < index ==> p[j].high + 1 < num
    requires forall j :: index <= j < |p| ==> num + 1 < p[j].low
    ensures Adds(p[..index] + [Piece(num, num)] + p[index..], p, num)
  {
    var x := Piece(num, num);
    var q := p[..index] + [x] + p[index..];
    assert p == p[..index] + [] + p[index..];
    CanonicalThree(p[..index], [x], p[index..]);
    forall n
      ensures Has(q, n) <==> Has(p, n) || n == num
    {
      Replace(p[..index], [], p[index..], [x], n);
      HasOne(x, n);
    }
  }

  /** What is left of a piece without `num`. */
  function Remainder(x: Piece, num: uint64): seq<Piece>
    requires x.low <= num <= x.high
  {
    (if x.low < num then [Piece(x.low, num - 1)] else [])
    + (if num < x.high then [Piece(num + 1, x.high)] else [])
  }

  lemma RemainderHas(x: Piece, num: uint64, n: int)
    requires x.low <= num <= x.high
    ensures Has(Remainder(x, num), n) <==> x.low <= n <= x.high && n != num
  {
    var a: seq<Piece> := if x.low < num then [Piece(x.low, num - 1)] else [];
    var b: seq<Piece> := if num < x.high then [Piece(num + 1, x.high)] else [];
    HasConcat(a, b, n);
    if x.low < num {
      HasOne(Piece(x.low, num - 1), n);
    }
    if num < x.high {
      HasOne(Piece(num + 1, x.high), n);
    }
  }

  lemma RemainderWithin(x: Piece, num: uint64)
    requires x.low <= num <= x.high
    ensures var r := Remainder(x, num);
      Canonical(r) && forall k :: 0 <= k < |r| ==> x.low <= r[k].low && r[k].high <= x.high
  {
  }

  /** The four ways in which the source writes the list without `num`. */
  lemma CarvedCases(p: seq<Piece>, num: uint64, i: nat)
    requires i < |p| && p[i].low <= num <= p[i].high
    ensures var x, r := p[i], p[..i] + Remainder(p[i], num) + p[i + 1..];
      && (x.low < num < x.high ==>
          r == p[..i] + [Piece(x.low, num - 1)] + [Piece(num + 1, x.high)] + p[i + 1..])
      && (x.low == num < x.high ==> r == p[i := Piece(num + 1, x.high)])
      && (x.low < num == x.high ==> r == p[i := Piece(x.low, num - 1)])
      && (x.low == num == x.high ==> r == p[..i] + p[i + 1..])
  {
  }

  lemma Carve(p: seq<Piece>, num: uint64, i: nat)
    requires Canonical(p) && i < |p| && p[i].low <= num <= p[i].high
    ensures Removes(p[..i] + Remainder(p[i], num) + p[i + 1..], p, num)
  {
    hide Has, Remainder;
    var r := Remainder(p[i], num);
    var q := p[..i] + r + p[i + 1..];
    assert p == p[..i] + [p[i]] + p[i + 1..];
    RemainderWithin(p[i], num);
    CanonicalThree(p[..i], r, p[i + 1..]);
    forall n
      ensures Has(q, n) <==> Has(p, n) && n != num
    {
      Replace(p[..i], [p[i]], p[i + 1..], r, n);
      HasOne(p[i], n);
      RemainderHas(p[i], num, n);
      NotElsewhere(p, i, n, num);
    }
  }

  /** Pieces other than the `i`-th have none of its numbers. */
  lemma NotElsewhere(p: seq<Piece>, i: nat, n: int, num: int)
    requires Canonical(p) && i < |p| && p[i].low <= num <= p[i].high
    ensures n == num ==> !Has(p[..i], n) && !Has(p[i + 1..], n)
  {
    if n == num {
      assert forall j :: 0 <= j < i ==> p[..i][j].high < p[i].low;
      var after := p[i + 1..];
      assert forall j :: 0 <= j < |after| ==> p[i].high < after[j].low;
    }
  }

  // ----- what the two operations do to any list

  /** add_to_section from piece `i` on, `index` pieces having been passed as lying below. The
      merge with the piece below has no counterpart: see `Section.Add`. */
  function AddedFrom(p: seq<Piece>, num: uint64, i: nat, index: nat): seq<Piece>
    requires index <= i <= |p|
    decreases |p| - i
  {
    if i == |p| then p[..index] + [Piece(num, num)] + p[index..]
    else if p[i].low <= num <= p[i].high then p
    else if Next64(p[i].high) == num then
      if i + 1 < |p| && p[i + 1].low == Next64(num)
      then p[..i] + [Piece(p[i].low, p[i + 1].high)] + p[i + 2..]
      else p[i := p[i].(high := num)]
    else if p[i].low != 0 && p[i].low - 1 == num then p[i := p[i].(low := num)]
    else AddedFrom(p, num, i + 1, if p[i].high < num then index + 1 else index)
  }

  lemma AddedFromStep(p: seq<Piece>, num: uint64, i: nat, index: nat)
    requires index <= i < |p|
    ensures var r := AddedFrom(p, num, i, index);
      if p[i].low <= num <= p[i].high then r == p
      else if Next64(p[i].high) == num then
        if i + 1 < |p| && p[i + 1].low == Next64(num)
        then r == p[..i] + [Piece(p[i].low, p[i + 1].high)] + p[i + 2..]
        else r == p[i := p[i].(high := num)]
      else if p[i].low != 0 && p[i].low - 1 == num then r == p[i := p[i].(low := num)]
      else r == AddedFrom(p, num, i + 1, if p[i].high < num then index + 1 else index)
  {
  }

  lemma AddedFromEnd(p: seq<Piece>, num: uint64, index: nat)
    requires index <= |p|
    ensures AddedFrom(p, num, |p|, index) == p[..index] + [Piece(num, num)] + p[index..]
  {
  }

  function Added(p: seq<Piece>, num: uint64): seq<Piece> {
    AddedFrom(p, num, 0, 0)
  }

  /** delete_from_section from piece `i` on. */
  function DeletedFrom(p: seq<Piece>, num: uint64, i: nat): seq<Piece>
    requires i <= |p|
    decreases |p| - i
  {
    if i == |p| then p
    else if p[i].low <= num <= p[i].high then p[..i] + Remainder(p[i], num) + p[i + 1..]
    else DeletedFrom(p, num, i + 1)
  }

  function Deleted(p: seq<Piece>, num: uint64): seq<Piece> {
    DeletedFrom(p, num, 0)
  }

  /** What the pieces before `i` being passed over means on a canonical list. */
  ghost predicate Passed(p: seq<Piece>, num: uint64, i: nat, index: nat) {
    && index <= i <= |p|
    && (forall j :: 0 <= j < index ==> p[j].high + 1 < num)
    && (forall j :: index <= j < i ==> num + 1 < p[j].low)
    && (num == 0 ==> forall j :: 0 <= j < i ==> p[j].high != UINT64_MAX)
  }

  lemma PassedStep(p: seq<Piece>, num: uint64, i: nat, index: nat)
    requires Canonical(p) && i < |p| && Passed(p, num, i, index)
    requires !(p[i].low <= num <= p[i].high) && Next64(p[i].high) != num
    requires !(p[i].low != 0 && p[i].low - 1 == num)
    ensures Passed(p, num, i + 1, if p[i].high < num then index + 1 else index)
  {
    assert forall j :: 0 <= j < i ==> p[j].high + 1 < p[i].low;
    assert index < i ==> num < p[index].low <= p[index].high < p[i].high;
  }

  /** The one case in which a canonical list is spoiled. */
  lemma WrapMet(p: seq<Piece>, num: uint64, i: nat, index: nat)
    requires Canonical(p) && i < |p| && Passed(p, num, i, index)
    requires !(p[i].low <= num <= p[i].high) && Next64(p[i].high) == num && num == 0
    ensures Wraps(p, num) && i == |p| - 1
  {
    var last := p[|p| - 1];
    assert last.low <= last.high;
  }

  lemma {:induction false} AddedFromCanonical(p: seq<Piece>, num: uint64, i: nat, index: nat)
    requires Canonical(p) && Passed(p, num, i, index)
    ensures !Wraps(p, num) ==> Adds(AddedFrom(p, num, i, index), p, num)
    ensures Wraps(p, num) ==> AddedFrom(p, num, i, index) == SpoiledBy(p)
    decreases |p| - i
  {
    hide Adds;
    if i == |p| {
      Insert(p, num, index);
    } else if p[i].low <= num <= p[i].high {
      AlreadyThere(p, num, i);
    } else if Next64(p[i].high) == num {
      if num == 0 {
        WrapMet(p, num, i, index);
      } else if i + 1 < |p| && p[i + 1].low == Next64(num) {
        MergeUp(p, num, i);
      } else {
        Extend(p, num, i, p[i].(high := num));
      }
    } else if p[i].low != 0 && p[i].low - 1 == num {
      Extend(p, num, i, p[i].(low := num));
    } else {
      PassedStep(p, num, i, index);
      AddedFromCanonical(p, num, i + 1, if p[i].high < num then index + 1 else index);
    }
  }

  /** A list whose last piece was given a high bound of zero. */
  function SpoiledBy(p: seq<Piece>): seq<Piece> {
    if p == [] then [] else p[..|p| - 1] + [Piece(p[|p| - 1].low, 0)]
  }

  /** A canonical list followed by a piece without members. */
  predicate Spoiled(q: seq<Piece>) {
    q != [] && Canonical(q[..|q| - 1]) && q[|q| - 1].low != 0 && q[|q| - 1].high == 0
  }

  lemma SpoiledHas(q: seq<Piece>, n: int)
    requires Spoiled(q)
    ensures Has(q, n) <==> Has(q[..|q| - 1], n)
  {
    var last := q[|q| - 1];
    assert q == q[..|q| - 1] + [last];
    HasConcat(q[..|q| - 1], [last], n);
    HasOne(last, n);
  }

  /** Adding is union exactly when it does not wrap. When it does, neither the number that was
      added nor the largest number is a member of the list that is left. */
  lemma AddedIsUnionIff(p: seq<Piece>, num: uint64)
    requires Canonical(p)
    ensures Adds(Added(p, num), p, num) <==> !Wraps(p, num)
    ensures Wraps(p, num) ==>
      && Added(p, num) == SpoiledBy(p) && Spoiled(Added(p, num))
      && !Has(Added(p, num), num) && !Has(Added(p, num), UINT64_MAX)
  {
    AddedFromCanonical(p, num, 0, 0);
    if Wraps(p, num) {
      var q, good := SpoiledBy(p), p[..|p| - 1];
      assert q[..|q| - 1] == good;
      SpoiledHas(q, num);
      SpoiledHas(q, UINT64_MAX);
      BelowLast(p, num);
    }
  }

  /** The pieces before the last have neither zero nor the largest number when a list wraps. */
  lemma BelowLast(p: seq<Piece>, num: uint64)
    requires Canonical(p) && Wraps(p, num)
    ensures !Has(p[..|p| - 1], num) && !Has(p[..|p| - 1], UINT64_MAX)
  {
    var good, last := p[..|p| - 1], p[|p| - 1];
    assert forall j :: 0 <= j < |good| ==> good[j] == p[j] && p[j].high + 1 < last.low;
    assert forall j :: 0 < j < |good| ==> p[0].high + 1 < p[j].low;
  }

  lemma {:induction false} DeletedFromCanonical(p: seq<Piece>, num: uint64, i: nat)
    requires Canonical(p) && i <= |p|
    requires forall j :: 0 <= j < i ==> !(p[j].low <= num <= p[j].high)
    ensures Removes(DeletedFrom(p, num, i), p, num)
    decreases |p| - i
  {
    if i == |p| {
      assert !Has(p, num);
    } else if p[i].low <= num <= p[i].high {
      Carve(p, num, i);
    } else {
      DeletedFromCanonical(p, num, i + 1);
    }
  }

  /** Deleting is difference on every canonical list. */
  lemma DeletedIsDifference(p: seq<Piece>, num: uint64)
    requires Canonical(p)
    ensures Removes(Deleted(p, num), p, num)
  {
    DeletedFromCanonical(p, num, 0);
  }

  lemma {:induction false} DeletedFromSpoiled(good: seq<Piece>, last: Piece, num: uint64, i: nat)
    requires i <= |good| && last.low != 0 && last.high == 0
    ensures DeletedFrom(good + [last], num, i) == DeletedFrom(good, num, i) + [last]
    decreases |good| - i
  {
    var q := good + [last];
    if i == |good| {
      assert DeletedFrom(q, num, i) == q;
    } else if good[i].low <= num <= good[i].high {
      assert q[..i] == good[..i] && q[i + 1..] == good[i + 1..] + [last];
    } else {
      DeletedFromSpoiled(good, last, num, i + 1);
    }
  }

  /** A spoiled list never loses its last piece: not even deleting its own low bound helps. */
  lemma DeletedKeepsSpoiled(good: seq<Piece>, last: Piece, num: uint64)
    requires last.low != 0 && last.high == 0
    ensures Deleted(good + [last], num) == Deleted(good, num) + [last]
  {
    DeletedFromSpoiled(good, last, num, 0);
  }

  /** `x` is a longest run of members. */
  ghost predicate MaximalRun(p: seq<Piece>, x: Piece) {
    && x.low <= x.high
    && (forall n :: x.low <= n <= x.high ==> Has(p, n))
    && !Has(p, x.low - 1) && !Has(p, x.high + 1)
  }

  lemma PieceIsMaximalRun(p: seq<Piece>, i: nat)
    requires Canonical(p) && i < |p|
    ensures MaximalRun(p, p[i])
  {
    forall n | p[i].low <= n <= p[i].high
      ensures Has(p, n)
    {
    }
    forall j | 0 <= j < |p|
      ensures !(p[j].low <= p[i].low - 1 <= p[j].high) && !(p[j].low <= p[i].high + 1 <= p[j].high)
    {
    }
  }

  class Section {
    var pieces: seq<Piece>

    /** create_section. */
    constructor ()
      ensures pieces == []
    {
      pieces := [];
    }

    /** add_to_section. On a canonical list it is union exactly when it does not wrap. The merge
        with the piece below is never reached, whatever the list: the round before would have
        ended the search. */
    method Add(num: uint64)
      modifies this
      ensures pieces == Added(old(pieces), num)
      ensures Canonical(old(pieces)) ==>
        (Adds(pieces, old(pieces), num) <==> !Wraps(old(pieces), num))
    {
      hide Adds, Canonical, Wraps, AddedFrom;
      var index, i := 0, 0;
      ghost var p := pieces;
      if Canonical(p) {
        AddedIsUnionIff(p, num);
      }
      while i < |pieces|
        invariant 0 <= index <= i <= |pieces| && pieces == p
        invariant i > 0 ==> Next64(p[i - 1].high) != num
        invariant AddedFrom(p, num, i, index) == Added(p, num)
      {
        AddedFromStep(p, num, i, index);
        if pieces[i].high < num {
          index := index + 1;
        }
        if pieces[i].low <= num && pieces[i].high >= num {
          return;
        } else if Next64(pieces[i].high) == num {
          if i + 1 < |pieces| && pieces[i + 1].low == Next64(num) {
            pieces := pieces[..i] + [Piece(pieces[i].low, pieces[i + 1].high)] + pieces[i + 2..];
          } else {
            pieces := pieces[i := pieces[i].(high := num)];
          }
          return;
        } else if pieces[i].low != 0 && pieces[i].low - 1 == num {
          if i > 0 && Next64(pieces[i - 1].high) == num {
            assert false;
          }
          pieces := pieces[i := pieces[i].(low := num)];
          return;
        }
        i := i + 1;
      }
      AddedFromEnd(p, num, index);
      pieces := pieces[..index] + [Piece(num, num)] + pieces[index..];
    }

    /** delete_from_section: difference with one number on a canonical list. */
    method Delete(num: uint64)
      modifies this
      ensures pieces == Deleted(old(pieces), num)
      ensures Canonical(old(pieces)) ==> Removes(pieces, old(pieces), num)
    {
      hide Removes, Canonical, Remainder;
      var i := 0;
      ghost var p := pieces;
      if Canonical(p) {
        DeletedIsDifference(p, num);
      }
      while i < |pieces|
        invariant 0 <= i <= |pieces| && pieces == p
        invariant DeletedFrom(p, num, i) == Deleted(p, num)
      {
        if pieces[i].low <= num && pieces[i].high >= num {
          var x := pieces[i];
          CarvedCases(p, num, i);
          if x.low < num && x.high > num {
            pieces := pieces[..i] + [Piece(x.low, num - 1)] + [Piece(num + 1, x.high)] + pieces[i + 1..];
          } else if x.low == num && x.high > num {
            pieces := pieces[i := Piece(num + 1, x.high)];
          } else if x.low < num && x.high == num {
            pieces := pieces[i := Piece(x.low, num - 1)];
          } else {
            pieces := pieces[..i] + pieces[i + 1..];
          }
          return;
        }
        i := i + 1;
      }
    }

    /** first_low_in_section: the low bound of the first piece, or zero; on a canonical list the
        least member. */
    method FirstLow() returns (low: uint64)
      ensures low == if pieces == [] then 0 else pieces[0].low
      ensures Canonical(pieces) && pieces != [] ==>
        Has(pieces, low) && forall n :: Has(pieces, n) ==> low <= n
    {
      if |pieces| == 0 {
        return 0;
      }
      assert Canonical(pieces) ==> Has(pieces, pieces[0].low);
      return pieces[0].low;
    }

    /** last_continual_high_in_section: the high bound of the first piece, or zero; on a canonical
        list where the run that starts at the least member ends. */
    method LastContinualHigh() returns (high: uint64)
      ensures high == if pieces == [] then 0 else pieces[0].high
      ensures Canonical(pieces) && pieces != [] ==>
        && (forall n :: Has(pieces, n) && n <= high ==> forall k :: n <= k <= high ==> Has(pieces, k))
        && Has(pieces, high) && !Has(pieces, high + 1)
    {
      if |pieces| == 0 {
        return 0;
      }
      if Canonical(pieces) {
        TailMembers(pieces, pieces[0].high);
        assert forall n :: Has(pieces, n) && n <= pieces[0].high ==> pieces[0].low <= n;
        assert forall k :: pieces[0].low <= k <= pieces[0].high ==> Has(pieces, k);
      }
      return pieces[0].high;
    }

    /** get_piece_in_section: on a canonical list the pieces are the longest runs of members, and
        there is none at the start exactly when there are no members. */
    method GetPiece(index: nat) returns (r: Option<Piece>)
      ensures r.None? <==> |pieces| <= index
      ensures r.Some? ==> r.value == pieces[index]
      ensures Canonical(pieces) && r.Some? ==> MaximalRun(pieces, r.value)
      ensures Canonical(pieces) && index == 0 ==> (r.None? <==> Members(pieces) == {})
    {
      if |pieces| <= index {
        NoMembers();
        return None;
      }
      if Canonical(pieces) {
        PieceIsMaximalRun(pieces, index);
        assert Has(pieces, pieces[index].low);
        assert pieces[index].low in Members(pieces);
      }
      return Some(pieces[index]);
    }
  }

  // ----- sequences of operations

  datatype Op = Insertion(num: uint64) | Deletion(num: uint64)

  function Applied(s: set<nat>, op: Op): set<nat> {
    match op
    case Insertion(num) => s + {num}
    case Deletion(num) => s - {num}
  }

  /** The set that a sequence of operations builds from nothing. */
  function Outcome(ops: seq<Op>): set<nat> {
    if ops == [] then {} else Applied(Outcome(ops[..|ops| - 1]), ops[|ops| - 1])
  }

  /** No operation of the sequence is the one that wraps. */
  ghost predicate NeverWraps(ops: seq<Op>) {
    forall i :: 0 <= i < |ops| && ops[i].Insertion? ==> !SetWraps(Outcome(ops[..i]), ops[i].num)
  }

  lemma AddsMembers(q: seq<Piece>, p: seq<Piece>, num: uint64)
    requires Adds(q, p, num)
    ensures Canonical(q) && Members(q) == Members(p) + {num}
  {
    hide Has;
  }

  lemma RemovesMembers(q: seq<Piece>, p: seq<Piece>, num: uint64)
    requires Removes(q, p, num)
    ensures Canonical(q) && Members(q) == Members(p) - {num}
  {
    hide Has;
  }

  /** Any sequence of operations, started on a new section. */
  method RunOps(ops: seq<Op>) returns (sec: Section)
    requires NeverWraps(ops)
    ensures fresh(sec) && Canonical(sec.pieces) && Members(sec.pieces) == Outcome(ops)
  {
    hide Has, Canonical, Adds, Removes, SetWraps, Wraps;
    sec := new Section();
    var i := 0;
    NoMembers();
    while i < |ops|
      invariant 0 <= i <= |ops| && fresh(sec)
      invariant Canonical(sec.pieces) && Members(sec.pieces) == Outcome(ops[..i])
    {
      assert ops[..i + 1][..i] == ops[..i];
      ghost var p := sec.pieces;
      match ops[i] {
        case Insertion(num) =>
          WrapsIff(p, num);
          sec.Add(num);
          AddsMembers(sec.pieces, p, num);
        case Deletion(num) =>
          sec.Delete(num);
          RemovesMembers(sec.pieces, p, num);
      }
      i := i + 1;
    }
    assert ops[..i] == ops;
  }

  lemma NoMembers()
    ensures Canonical([]) && Members([]) == {}
  {
  }

  /** Two histories with the same outcome leave the same piece list, whatever their order. */
  lemma HistoryIrrelevant(a: seq<Op>, b: seq<Op>, p: seq<Piece>, q: seq<Piece>)
    requires Canonical(p) && Members(p) == Outcome(a)
    requires Canonical(q) && Members(q) == Outcome(b)
    ensures p == q <==> Outcome(a) == Outcome(b)
  {
    if Outcome(a) == Outcome(b) {
      forall n
        ensures Has(p, n) <==> Has(q, n)
      {
        assert n >= 0 ==> (Has(p, n) <==> n in Members(p)) && (Has(q, n) <==> n in Members(q));
      }
      CanonicalUnique(p, q);
    }
  }

  /** Adding zero after the largest number: both are lost. */
  lemma AddZeroAfterMax()
    ensures Added([Piece(UINT64_MAX, UINT64_MAX)], 0) == [Piece(UINT64_MAX, 0)]
    ensures Deleted([Piece(UINT64_MAX, 0)], UINT64_MAX) == [Piece(UINT64_MAX, 0)]
    ensures forall n :: !Has([Piece(UINT64_MAX, 0)], n)
  {
    var x := Piece(UINT64_MAX, 0);
    forall n
      ensures !Has([x], n)
    {
      HasOne(x, n);
    }
    DeletedKeepsSpoiled([], x, UINT64_MAX);
    assert [] + [x] == [x];
  }

  lemma AlreadyThere(p: seq<Piece>, num: uint64, i: nat)
    requires Canonical(p) && i < |p| && p[i].low <= num <= p[i].high
    ensures Adds(p, p, num)
  {
    assert Has(p, num);
  }
}
