/** The sending thread as a transition system (fork_server_channel in server_help.c), and what
    holds of all its runs.

    One step is one round of the thread's loop: a retransmission request is taken in if one is
    pending, then either the next segment of the first pass goes out, or the first pass is
    declared over, or the lowest requested segment is sent again. A run is the sequence of what
    was pending in each round; being killed is the run ending.

    The requests are kept as an interval list, and segment numbers come from received messages,
    so a request can be the one that spoils the list. The laws of the first pass hold all the
    same. The laws of retransmission hold of a run exactly as long as no request wraps; after
    that, one number is sent again for ever. With safe requests the log of a run is a history that
    mentions neither lists nor flags, round by round.
 */
module SenderRuns {
  import opened Bytes
  import opened FileHandle
  import opened Sections

  datatype Event =
    | Took(num: nat)
    | Sent(num: nat, data: seq<byte>)
    | Resent(num: nat, data: seq<byte>)

  /** `high` is the upper end of the run 0..high that `send_sec` holds; `retrans` is the list of
      `retrans_sec`. The log lists what happened, in order. */
  datatype State = State(high: nat, retrans: seq<Piece>, finished: bool, log: seq<Event>)

  function Initial(): State {
    State(0, [], false, [])
  }

  function TakeIn(st: State, request: Option<uint64>): State {
    if request.None? then st
    else st.(retrans := Added(st.retrans, request.value), log := st.log + [Took(request.value)])
  }

  function Advance(file: seq<byte>, size: nat, st: State): State
    requires size > 0
  {
    if st.finished then
      if st.retrans == [] then st
      else
        var n := st.retrans[0].low;
        st.(retrans := Deleted(st.retrans, n), log := st.log + [Resent(n, Segment(file, n, size))])
    else if st.high < NumSegments(|file|, size) + 1 then
      var n := st.high + 1;
      st.(high := n, log := st.log + [Sent(n, Segment(file, n, size))])
    else
      st.(finished := true)
  }

  function Step(file: seq<byte>, size: nat, st: State, request: Option<uint64>): State
    requires size > 0
  {
    Advance(file, size, TakeIn(st, request))
  }

  function Run(file: seq<byte>, size: nat, requests: seq<Option<uint64>>): State
    requires size > 0
  {
    if requests == [] then Initial()
    else
      var n := |requests| - 1;
      Step(file, size, Run(file, size, requests[..n]), requests[n])
  }

  // ----- the first pass

  /** The first-pass transmissions in a log. */
  function FirstPass(log: seq<Event>): seq<Event> {
    if log == [] then []
    else
      var n := |log| - 1;
      FirstPass(log[..n]) + (if log[n].Sent? then [log[n]] else [])
  }

  lemma FirstPassAppend(log: seq<Event>, e: Event)
    ensures FirstPass(log + [e]) == FirstPass(log) + (if e.Sent? then [e] else [])
  {
    assert (log + [e])[..|log|] == log;
  }

  /** Segments 1 to `k` of the file, in order. */
  function Segments(file: seq<byte>, size: nat, k: nat): (es: seq<Event>)
    requires size > 0
    ensures |es| == k
  {
    if k == 0 then [] else Segments(file, size, k - 1) + [Sent(k, Segment(file, k, size))]
  }

  /** No segment is sent again before all of the first pass is out. */
  ghost predicate ResentAfterPass(log: seq<Event>, total: nat) {
    forall i :: 0 <= i < |log| && log[i].Resent? ==> |FirstPass(log[..i])| == total
  }

  lemma ResentAfterPassAppend(log: seq<Event>, e: Event, total: nat)
    requires ResentAfterPass(log, total)
    requires e.Resent? ==> |FirstPass(log)| == total
    ensures ResentAfterPass(log + [e], total)
  {
    hide FirstPass;
    var l := log + [e];
    forall i | 0 <= i < |l| && l[i].Resent?
      ensures |FirstPass(l[..i])| == total
    {
      if i < |log| {
        assert l[i] == log[i] && l[..i] == log[..i];
      } else {
        assert l[..i] == log;
      }
    }
  }

  /** What every reachable state of a sender of N segments satisfies after `rounds` rounds. */
  ghost predicate PassInvariant(file: seq<byte>, size: nat, st: State, rounds: nat)
    requires size > 0
  {
    var total := NumSegments(|file|, size) + 1;
    && st.high == Min(rounds, total)
    && (st.finished <==> rounds > total)
    && FirstPass(st.log) == Segments(file, size, st.high)
    && ResentAfterPass(st.log, total)
  }

  lemma TakeInKeepsPass(file: seq<byte>, size: nat, st: State, request: Option<uint64>, rounds: nat)
    requires size > 0 && PassInvariant(file, size, st, rounds)
    ensures PassInvariant(file, size, TakeIn(st, request), rounds)
  {
    hide FirstPass, Segments, NumSegments, ResentAfterPass, Added;
    if request.Some? {
      var e := Took(request.value);
      FirstPassAppend(st.log, e);
      ResentAfterPassAppend(st.log, e, NumSegments(|file|, size) + 1);
      assert FirstPass(st.log) + [] == FirstPass(st.log);
    }
  }

  lemma AdvanceKeepsPass(file: seq<byte>, size: nat, st: State, rounds: nat)
    requires size > 0 && PassInvariant(file, size, st, rounds)
    ensures PassInvariant(file, size, Advance(file, size, st), rounds + 1)
  {
    hide FirstPass, NumSegments, ResentAfterPass, Segment, Deleted;
    var total := NumSegments(|file|, size) + 1;
    if st.finished {
      if st.retrans != [] {
        var n := st.retrans[0].low;
        var e := Resent(n, Segment(file, n, size));
        FirstPassAppend(st.log, e);
        ResentAfterPassAppend(st.log, e, total);
        assert FirstPass(st.log) + [] == FirstPass(st.log);
      }
    } else if st.high < total {
      var e := Sent(st.high + 1, Segment(file, st.high + 1, size));
      FirstPassAppend(st.log, e);
      ResentAfterPassAppend(st.log, e, total);
    }
  }

  /** All runs: after any number of rounds, with any requests, exactly segments 1..k have been
      sent once each and in order, k being the number of rounds up to one more than the segments
      of the file; the pass is over one round later; and nothing was sent again before that. */
  lemma {:induction false} FirstPassOfRun(file: seq<byte>, size: nat, requests: seq<Option<uint64>>)
    requires size > 0
    ensures PassInvariant(file, size, Run(file, size, requests), |requests|)
  {
    hide TakeIn, Advance, PassInvariant;
    if requests == [] {
      PassStarts(file, size);
    } else {
      var n := |requests| - 1;
      var st := Run(file, size, requests[..n]);
      FirstPassOfRun(file, size, requests[..n]);
      TakeInKeepsPass(file, size, st, requests[n], n);
      AdvanceKeepsPass(file, size, TakeIn(st, requests[n]), n);
    }
  }

  lemma PassStarts(file: seq<byte>, size: nat)
    requires size > 0
    ensures PassInvariant(file, size, Initial(), 0)
  {
  }

  function DataOf(es: seq<Event>): seq<byte> {
    if es == [] then []
    else
      var n := |es| - 1;
      DataOf(es[..n]) + (if es[n].Took? then [] else es[n].data)
  }

  lemma {:induction false} DataOfSegments(file: seq<byte>, size: nat, k: nat)
    requires size > 0
    ensures DataOf(Segments(file, size, k)) == SegmentsJoined(file, size, k)
  {
    hide Segment;
    if k > 0 {
      DataOfSegments(file, size, k - 1);
      assert Segments(file, size, k)[..k - 1] == Segments(file, size, k - 1);
    }
  }

  /** A finished first pass has sent the N segments of the file and then an empty one; what it
      sent is the file. */
  lemma FinishedPassSentFile(file: seq<byte>, size: nat, requests: seq<Option<uint64>>)
    requires size > 0 && Run(file, size, requests).finished
    requires Reachable(|file|, size)
    ensures var log := Run(file, size, requests).log;
      var n := NumSegments(|file|, size);
      && FirstPass(log) == Segments(file, size, n) + [Sent(n + 1, [])]
      && DataOf(FirstPass(log)) == file
  {
    hide Run, Segment, NumSegments, SegmentsJoined, FirstPass;
    var n := NumSegments(|file|, size);
    FirstPassOfRun(file, size, requests);
    EmptySegment(file, size);
    DataOfSegments(file, size, n);
    SegmentsLossless(file, size);
    var es := Segments(file, size, n + 1);
    assert es[..n] == Segments(file, size, n);
    assert DataOf(es) == file + [];
  }

  lemma EmptySegment(file: seq<byte>, size: nat)
    requires size > 0
    ensures Segment(file, NumSegments(|file|, size) + 1, size) == []
  {
  }

  /** Every transmission carries the segment it names. */
  predicate CarriesSegments(file: seq<byte>, size: nat, log: seq<Event>)
    requires size > 0
  {
    forall i :: 0 <= i < |log| && !log[i].Took? ==> log[i].data == Segment(file, log[i].num, size)
  }

  lemma {:induction false} RunCarriesSegments(file: seq<byte>, size: nat, requests: seq<Option<uint64>>)
    requires size > 0
    ensures CarriesSegments(file, size, Run(file, size, requests).log)
  {
    hide NumSegments, Segment, Added, Deleted;
    if requests != [] {
      RunCarriesSegments(file, size, requests[..|requests| - 1]);
    }
  }

  /** The transmissions in a log. */
  function Transmitted(log: seq<Event>): seq<Event> {
    if log == [] then []
    else
      var n := |log| - 1;
      Transmitted(log[..n]) + (if log[n].Took? then [] else [log[n]])
  }

  lemma TransmittedAppend(log: seq<Event>, e: Event)
    ensures Transmitted(log + [e]) == Transmitted(log) + (if e.Took? then [] else [e])
  {
    assert (log + [e])[..|log|] == log;
  }

  /** The first pass is what is transmitted first. */
  lemma {:induction false} FirstPassIsFirst(log: seq<Event>, total: nat)
    requires ResentAfterPass(log, total) && |FirstPass(log)| <= total
    ensures FirstPass(log) <= Transmitted(log)
    ensures |FirstPass(log)| < total ==> FirstPass(log) == Transmitted(log)
  {
    if log != [] {
      var n := |log| - 1;
      assert forall i :: 0 <= i < n ==> log[..n][i] == log[i] && log[..n][..i] == log[..i];
      FirstPassIsFirst(log[..n], total);
    }
  }

  // ----- retransmission

  /** The last that the log says about `n` is that it was taken in. */
  predicate Pending(log: seq<Event>, n: nat) {
    if log == [] then false
    else
      var e := log[|log| - 1];
      if e.Took? && e.num == n then true
      else if e.Resent? && e.num == n then false
      else Pending(log[..|log| - 1], n)
  }

  lemma PendingAppend(log: seq<Event>, e: Event, n: nat)
    ensures Pending(log + [e], n)
      == if e.Took? && e.num == n then true
         else if e.Resent? && e.num == n then false
         else Pending(log, n)
  {
    assert (log + [e])[..|log|] == log;
  }

  /** Every re-sent number was pending when it was sent. */
  ghost predicate ResentWerePending(log: seq<Event>) {
    forall i :: 0 <= i < |log| && log[i].Resent? ==> Pending(log[..i], log[i].num)
  }

  lemma ResentWerePendingAppend(log: seq<Event>, e: Event)
    requires ResentWerePending(log) && (e.Resent? ==> Pending(log, e.num))
    ensures ResentWerePending(log + [e])
  {
    hide Pending;
    var l := log + [e];
    forall i | 0 <= i < |l| && l[i].Resent?
      ensures Pending(l[..i], l[i].num)
    {
      if i < |log| {
        assert l[i] == log[i] && l[..i] == log[..i];
      } else {
        assert l[..i] == log;
      }
    }
  }

  /** The list is canonical and holds exactly the pending numbers, and only pending numbers were
      sent again. */
  ghost predicate Conserved(retrans: seq<Piece>, log: seq<Event>) {
    && Canonical(retrans)
    && (forall n: nat :: Has(retrans, n) <==> Pending(log, n))
    && ResentWerePending(log)
  }

  lemma TookKeepsConserved(p: seq<Piece>, log: seq<Event>, num: uint64)
    requires Conserved(p, log) && !Wraps(p, num)
    ensures Conserved(Added(p, num), log + [Took(num)])
  {
    hide Pending, ResentWerePending, Has, Canonical, Added, Wraps;
    AddedIsUnionIff(p, num);
    ResentWerePendingAppend(log, Took(num));
    forall n: nat
      ensures Has(Added(p, num), n) <==> Pending(log + [Took(num)], n)
    {
      PendingAppend(log, Took(num), n);
    }
  }

  lemma ResentKeepsConserved(p: seq<Piece>, log: seq<Event>, data: seq<byte>)
    requires Conserved(p, log) && p != []
    ensures Conserved(Deleted(p, p[0].low), log + [Resent(p[0].low, data)])
  {
    hide Pending, ResentWerePending, Has, Deleted;
    var e := Resent(p[0].low, data);
    DeletedIsDifference(p, p[0].low);
    FirstIsMember(p);
    ResentWerePendingAppend(log, e);
    forall n: nat
      ensures Has(Deleted(p, p[0].low), n) <==> Pending(log + [e], n)
    {
      PendingAppend(log, e, n);
    }
  }

  lemma FirstIsMember(p: seq<Piece>)
    requires Canonical(p) && p != []
    ensures Has(p, p[0].low)
  {
  }

  lemma SentKeepsConserved(p: seq<Piece>, log: seq<Event>, n: nat, data: seq<byte>)
    requires Conserved(p, log)
    ensures Conserved(p, log + [Sent(n, data)])
  {
    hide Pending, ResentWerePending, Has, Canonical;
    ResentWerePendingAppend(log, Sent(n, data));
    forall k: nat
      ensures Has(p, k) <==> Pending(log + [Sent(n, data)], k)
    {
      PendingAppend(log, Sent(n, data), k);
    }
  }

  lemma AdvanceKeepsConserved(file: seq<byte>, size: nat, st: State)
    requires size > 0 && Conserved(st.retrans, st.log)
    ensures var next := Advance(file, size, st);
      Conserved(next.retrans, next.log)
  {
    hide NumSegments, Segment, Conserved, Deleted;
    if st.finished {
      if st.retrans != [] {
        ResentKeepsConserved(st.retrans, st.log, Segment(file, st.retrans[0].low, size));
      }
    } else if st.high < NumSegments(|file|, size) + 1 {
      SentKeepsConserved(st.retrans, st.log, st.high + 1, Segment(file, st.high + 1, size));
    }
  }

  /** No request of the run wraps the list it is added to. */
  predicate SafeRequests(file: seq<byte>, size: nat, requests: seq<Option<uint64>>)
    requires size > 0
  {
    forall i :: 0 <= i < |requests| && requests[i].Some? ==>
      !Wraps(Run(file, size, requests[..i]).retrans, requests[i].value)
  }

  lemma SafePrefix(file: seq<byte>, size: nat, requests: seq<Option<uint64>>, k: nat)
    requires size > 0 && k <= |requests| && SafeRequests(file, size, requests)
    ensures SafeRequests(file, size, requests[..k])
  {
    hide Run, Wraps;
    var front := requests[..k];
    forall i | 0 <= i < k && front[i].Some?
      ensures !Wraps(Run(file, size, front[..i]).retrans, front[i].value)
    {
      assert front[..i] == requests[..i] && front[i] == requests[i];
    }
  }

  /** Conservation over all safe runs. */
  lemma {:induction false} ConservedInRun(file: seq<byte>, size: nat, requests: seq<Option<uint64>>)
    requires size > 0 && SafeRequests(file, size, requests)
    ensures var st := Run(file, size, requests);
      Conserved(st.retrans, st.log)
  {
    hide Advance, Conserved, Wraps, Added;
    if requests == [] {
      ConservedAtStart();
    } else {
      var n := |requests| - 1;
      var st := Run(file, size, requests[..n]);
      SafePrefix(file, size, requests, n);
      ConservedInRun(file, size, requests[..n]);
      if requests[n].Some? {
        TookKeepsConserved(st.retrans, st.log, requests[n].value);
      }
      AdvanceKeepsConserved(file, size, TakeIn(st, requests[n]));
    }
  }

  lemma ConservedAtStart()
    ensures Conserved([], [])
  {
  }

  /** Requests that leave out the largest number are safe. */
  lemma {:induction false} SafeWithoutMax(file: seq<byte>, size: nat, requests: seq<Option<uint64>>)
    requires size > 0 && Some(UINT64_MAX) !in requests
    ensures SafeRequests(file, size, requests)
    ensures !Pending(Run(file, size, requests).log, UINT64_MAX)
  {
    hide Run, Wraps, Pending, Added, Advance;
    if requests == [] {
      NeverTaken(file, size, requests);
    } else {
      var n := |requests| - 1;
      var front := requests[..n];
      SafeWithoutMax(file, size, front);
      ConservedInRun(file, size, front);
      NoMaxPending(Run(file, size, front));
      forall i | 0 <= i < |requests| && requests[i].Some?
        ensures !Wraps(Run(file, size, requests[..i]).retrans, requests[i].value)
      {
        if i < n {
          assert requests[..i] == front[..i] && requests[i] == front[i];
        } else {
          NoWrapWithoutMax(Run(file, size, front).retrans, requests[n].value);
        }
      }
      NeverTaken(file, size, requests);
    }
  }

  lemma NoMaxPending(st: State)
    requires Conserved(st.retrans, st.log) && !Pending(st.log, UINT64_MAX)
    ensures Canonical(st.retrans) && !Has(st.retrans, UINT64_MAX)
  {
    hide Pending, Has;
  }

  /** What was not requested is not pending. */
  lemma {:induction false} NeverTaken(file: seq<byte>, size: nat, requests: seq<Option<uint64>>)
    requires size > 0 && Some(UINT64_MAX) !in requests
    ensures !Pending(Run(file, size, requests).log, UINT64_MAX)
  {
    hide NumSegments, Segment, Added, Deleted, Pending;
    if requests == [] {
      assert !Pending([], UINT64_MAX) by { NothingPending(UINT64_MAX); }
    } else {
      var n := |requests| - 1;
      var st := Run(file, size, requests[..n]);
      NeverTaken(file, size, requests[..n]);
      var mid := TakeIn(st, requests[n]);
      if requests[n].Some? {
        PendingAppend(st.log, Took(requests[n].value), UINT64_MAX);
      }
      var next := Advance(file, size, mid);
      if next.log != mid.log {
        PendingAppend(mid.log, next.log[|mid.log|], UINT64_MAX);
        assert next.log == mid.log + [next.log[|mid.log|]];
      }
    }
  }

  lemma NothingPending(n: nat)
    ensures !Pending([], n)
  {
  }

  ghost predicate ResentSince(log: seq<Event>, i: nat, n: nat) {
    exists j :: i < j < |log| && log[j].Resent? && log[j].num == n
  }

  lemma {:induction false} TookThenPendingOrResent(log: seq<Event>, i: nat)
    requires i < |log| && log[i].Took?
    ensures Pending(log, log[i].num) || ResentSince(log, i, log[i].num)
    decreases |log|
  {
    var last := |log| - 1;
    var n := log[i].num;
    if i < last {
      TookThenPendingOrResent(log[..last], i);
      if ResentSince(log[..last], i, n) {
        var j :| i < j < last && log[..last][j].Resent? && log[..last][j].num == n;
        assert log[j] == log[..last][j];
      } else if log[last].Resent? && log[last].num == n {
        assert ResentSince(log, i, n);
      }
    }
  }

  /** Each request taken in is still in the list or has been answered since. */
  ghost predicate RequestsKept(st: State) {
    forall i :: 0 <= i < |st.log| && st.log[i].Took? ==>
      Has(st.retrans, st.log[i].num) || ResentSince(st.log, i, st.log[i].num)
  }

  /** In every state of a safe run no request is lost. */
  lemma NoRequestLost(file: seq<byte>, size: nat, requests: seq<Option<uint64>>)
    requires size > 0 && SafeRequests(file, size, requests)
    ensures RequestsKept(Run(file, size, requests))
  {
    hide Run, Pending, Has, ResentSince;
    ConservedInRun(file, size, requests);
    var st := Run(file, size, requests);
    forall i | 0 <= i < |st.log| && st.log[i].Took?
      ensures Has(st.retrans, st.log[i].num) || ResentSince(st.log, i, st.log[i].num)
    {
      TookThenPendingOrResent(st.log, i);
    }
  }

  /** A request that wraps is lost in the round that takes it in. */
  lemma WrapLosesRequest(file: seq<byte>, size: nat, st: State, num: uint64)
    requires size > 0 && Canonical(st.retrans) && Wraps(st.retrans, num)
    ensures !RequestsKept(Step(file, size, st, Some(num)))
  {
    hide NumSegments, Segment, Added, Deleted;
    var mid := TakeIn(st, Some(num));
    var next := Advance(file, size, mid);
    var i := |st.log|;
    AddedIsUnionIff(st.retrans, num);
    assert next.log[i] == Took(num);
    if mid.finished {
      SpoiledStep(mid.retrans, num);
      assert next.log == mid.log + [Resent(mid.retrans[0].low, next.log[i + 1].data)];
    }
    assert !ResentSince(next.log, i, num);
  }

  /** Deleting the first low bound of a list just spoiled brings nothing back. */
  lemma SpoiledStep(q: seq<Piece>, num: uint64)
    requires Spoiled(q) && !Has(q, num) && num == 0
    ensures q[0].low != num && !Has(Deleted(q, q[0].low), num)
  {
    var good, last := q[..|q| - 1], q[|q| - 1];
    assert q == good + [last];
    DeletedKeepsSpoiled(good, last, q[0].low);
    DeletedIsDifference(good, q[0].low);
    HasConcat(Deleted(good, q[0].low), [last], num);
    HasOne(last, num);
    SpoiledHas(q, num);
    if good != [] {
      FirstIsMember(good);
      assert good[0] == q[0];
    }
  }

  /** Requests are kept in every state of a run exactly when none of them wraps. */
  lemma {:induction false} RequestsKeptIffSafe(file: seq<byte>, size: nat, requests: seq<Option<uint64>>)
    requires size > 0
    ensures (forall k :: 0 <= k <= |requests| ==> RequestsKept(Run(file, size, requests[..k])))
      <==> SafeRequests(file, size, requests)
  {
    hide Run, RequestsKept, Wraps;
    if SafeRequests(file, size, requests) {
      forall k | 0 <= k <= |requests|
        ensures RequestsKept(Run(file, size, requests[..k]))
      {
        SafePrefix(file, size, requests, k);
        NoRequestLost(file, size, requests[..k]);
      }
    } else {
      var k := FirstLoss(file, size, requests);
    }
  }

  lemma {:induction false} FirstLoss(file: seq<byte>, size: nat, requests: seq<Option<uint64>>) returns (k: nat)
    requires size > 0 && !SafeRequests(file, size, requests)
    ensures k <= |requests| && !RequestsKept(Run(file, size, requests[..k]))
    decreases |requests|
  {
    hide Step, RequestsKept, Wraps;
    var n := |requests| - 1;
    var front := requests[..n];
    if !SafeRequests(file, size, front) {
      k := FirstLoss(file, size, front);
      assert front[..k] == requests[..k];
    } else {
      k := n + 1;
      ConservedInRun(file, size, front);
      assert forall i :: 0 <= i < n ==> requests[..i] == front[..i] && requests[i] == front[i];
      assert requests[n].Some? && Wraps(Run(file, size, front).retrans, requests[n].value);
      WrapLosesRequest(file, size, Run(file, size, front), requests[n].value);
      assert requests[..k] == requests;
    }
  }

  function TakeCount(log: seq<Event>, n: nat): nat {
    if log == [] then 0
    else
      var e := log[|log| - 1];
      TakeCount(log[..|log| - 1], n) + if e.Took? && e.num == n then 1 else 0
  }

  function ResendCount(log: seq<Event>, n: nat): nat {
    if log == [] then 0
    else
      var e := log[|log| - 1];
      ResendCount(log[..|log| - 1], n) + if e.Resent? && e.num == n then 1 else 0
  }

  lemma {:induction false} CountsOfLog(log: seq<Event>, n: nat)
    requires ResentWerePending(log)
    ensures ResendCount(log, n) + (if Pending(log, n) then 1 else 0) <= TakeCount(log, n)
  {
    if log != [] {
      var k := |log| - 1;
      assert forall i :: 0 <= i < k ==> log[..k][i] == log[i] && log[..k][..i] == log[..i];
      CountsOfLog(log[..k], n);
    }
  }

  /** In a safe run no segment is sent again more often than it was asked for. */
  lemma ResendsBounded(file: seq<byte>, size: nat, requests: seq<Option<uint64>>, n: nat)
    requires size > 0 && SafeRequests(file, size, requests)
    ensures var st := Run(file, size, requests);
      ResendCount(st.log, n) + (if Has(st.retrans, n) then 1 else 0) <= TakeCount(st.log, n)
  {
    hide Run, Pending, ResendCount, TakeCount, Has;
    ConservedInRun(file, size, requests);
    CountsOfLog(Run(file, size, requests).log, n);
  }

  // ----- draining

  ghost function Least(s: set<nat>): (m: nat)
    requires s != {}
    ensures m in s && forall n :: n in s ==> m <= n
  {
    LeastExists(s);
    var m :| m in s && forall n :: n in s ==> m <= n;
    m
  }

  lemma {:induction false} LeastExists(s: set<nat>)
    requires s != {}
    ensures exists m :: m in s && forall n :: n in s ==> m <= n
    decreases |s|
  {
    var x :| x in s;
    var rest := s - {x};
    assert s == rest + {x};
    if rest == {} {
      assert forall n :: n in s ==> x <= n;
    } else {
      LeastExists(rest);
      var m :| m in rest && forall n :: n in rest ==> m <= n;
      var least := Min(x, m);
      assert least in s && forall n :: n in s ==> least <= n;
    }
  }

  /** The members of a set, lowest first. */
  ghost function Ascending(s: set<nat>): (r: seq<nat>)
    ensures |r| == |s|
    decreases |s|
  {
    if s == {} then []
    else
      var m := Least(s);
      assert s == {m} + (s - {m});
      [m] + Ascending(s - {m})
  }

  ghost predicate Sorted(t: seq<nat>) {
    forall i, j :: 0 <= i < j < |t| ==> t[i] < t[j]
  }

  lemma SortedWithFirst(m: nat, t: seq<nat>)
    requires Sorted(t) && forall n :: n in t ==> m < n
    ensures Sorted([m] + t) && forall n :: n in [m] + t <==> n == m || n in t
  {
    var r := [m] + t;
    forall i, j | 0 <= i < j < |r|
      ensures r[i] < r[j]
    {
      assert r[j] == t[j - 1] && t[j - 1] in t;
    }
  }

  lemma {:induction false} AscendingIsSorted(s: set<nat>)
    ensures forall n :: n in Ascending(s) <==> n in s
    ensures Sorted(Ascending(s))
    decreases |s|
  {
    if s != {} {
      var m := Least(s);
      var rest := s - {m};
      assert s == {m} + rest;
      AscendingIsSorted(rest);
      SortedWithFirst(m, Ascending(rest));
    }
  }

  function Resends(file: seq<byte>, size: nat, ns: seq<nat>): (es: seq<Event>)
    requires size > 0
    ensures |es| == |ns|
  {
    if ns == [] then [] else [Resent(ns[0], Segment(file, ns[0], size))] + Resends(file, size, ns[1..])
  }

  /** `k` rounds without requests. */
  ghost function Quiet(file: seq<byte>, size: nat, st: State, k: nat): State
    requires size > 0
    decreases k
  {
    if k == 0 then st else Quiet(file, size, Step(file, size, st, None), k - 1)
  }

  /** One quiet round after the first pass, on a canonical list. */
  lemma QuietStep(file: seq<byte>, size: nat, st: State, next: State)
    requires size > 0 && st.finished && Canonical(st.retrans) && next == Step(file, size, st, None)
    ensures Canonical(next.retrans)
    ensures st.retrans == [] ==> next == st
    ensures st.retrans != [] ==>
      && next == st.(retrans := next.retrans, log := next.log)
      && |Members(next.retrans)| == |Members(st.retrans)| - 1
      && next.log + Resends(file, size, Ascending(Members(next.retrans)))
         == st.log + Resends(file, size, Ascending(Members(st.retrans)))
  {
    hide Segment, Has, Canonical, Deleted;
    if st.retrans != [] {
      var m := st.retrans[0].low;
      LeastIsFirst(st.retrans);
      DeletedIsDifference(st.retrans, m);
      RemovesMembers(next.retrans, st.retrans, m);
      AscendingStep(file, size, Members(st.retrans), m, st.log);
    }
  }

  lemma LeastIsFirst(p: seq<Piece>)
    requires Canonical(p) && p != []
    ensures Members(p) != {} && Least(Members(p)) == p[0].low
  {
    FirstIsMember(p);
    assert p[0].low in Members(p);
  }

  lemma AscendingStep(file: seq<byte>, size: nat, s: set<nat>, m: nat, log: seq<Event>)
    requires size > 0 && s != {} && m == Least(s)
    ensures |s - {m}| == |s| - 1
    ensures log + [Resent(m, Segment(file, m, size))] + Resends(file, size, Ascending(s - {m}))
         == log + Resends(file, size, Ascending(s))
  {
    hide Segment;
    var e := Resent(m, Segment(file, m, size));
    assert s == {m} + (s - {m});
    var ns, rest := Ascending(s), Ascending(s - {m});
    assert ns == [m] + rest && ns[1..] == rest;
    var more := Resends(file, size, rest);
    assert log + [e] + more == log + ([e] + more);
  }

  lemma EmptyIffNoMembers(p: seq<Piece>)
    requires Canonical(p)
    ensures p == [] <==> Members(p) == {}
  {
    if p == [] {
      NoMembers();
    } else {
      LeastIsFirst(p);
    }
  }

  /** After the first pass and without new requests, a canonical list empties in exactly as many
      rounds as it has members, lowest number first; after that nothing happens. */
  lemma {:induction false} Drains(file: seq<byte>, size: nat, st: State, extra: nat)
    requires size > 0 && st.finished && Canonical(st.retrans)
    ensures Quiet(file, size, st, |Members(st.retrans)| + extra)
         == st.(retrans := [], log := st.log + Resends(file, size, Ascending(Members(st.retrans))))
    decreases |Members(st.retrans)| + extra
  {
    hide Segment, Step, Least, Members, Canonical;
    var next := Step(file, size, st, None);
    QuietStep(file, size, st, next);
    EmptyIffNoMembers(st.retrans);
    if st.retrans == [] {
      assert st.log + [] == st.log;
      if extra > 0 {
        Drains(file, size, st, extra - 1);
      }
    } else {
      Drains(file, size, next, extra);
    }
  }

  /** Each quiet round answers one request: the list is not empty any sooner. */
  lemma {:induction false} DrainsNoSooner(file: seq<byte>, size: nat, st: State, k: nat)
    requires size > 0 && st.finished && Canonical(st.retrans) && k <= |Members(st.retrans)|
    ensures |Members(Quiet(file, size, st, k).retrans)| == |Members(st.retrans)| - k
    decreases k
  {
    hide Segment, Step, Least, Members, Canonical;
    if k > 0 {
      var next := Step(file, size, st, None);
      QuietStep(file, size, st, next);
      EmptyIffNoMembers(st.retrans);
      DrainsNoSooner(file, size, next, k - 1);
    }
  }

  // ----- what each round does

  /** A list something was added to is not empty. */
  lemma {:induction false} AddedNotEmpty(p: seq<Piece>, num: uint64, i: nat, index: nat)
    requires index <= i <= |p|
    ensures AddedFrom(p, num, i, index) != []
    decreases |p| - i
  {
    if i < |p| {
      AddedNotEmpty(p, num, i + 1, if p[i].high < num then index + 1 else index);
    }
  }

  function TookOf(request: Option<uint64>): seq<Event> {
    if request.None? then [] else [Took(request.value)]
  }

  /** After the first pass, whatever the list: a request is taken in, and one segment is sent
      again in the same round unless there was no request and nothing was left. */
  lemma RoundAfterPass(file: seq<byte>, size: nat, st: State, request: Option<uint64>)
    requires size > 0 && st.finished
    ensures var next := Step(file, size, st, request);
      var before := st.log + TookOf(request);
      if request.None? && st.retrans == [] then next.log == before
      else |next.log| == |before| + 1 && next.log[..|before|] == before && next.log[|before|].Resent?
  {
    hide Segment, Deleted, AddedFrom;
    if request.Some? {
      AddedNotEmpty(st.retrans, request.value, 0, 0);
    }
  }

  /** And if the list is canonical and the request does not wrap, that segment is the lowest one
      asked for, the new request included. */
  lemma AnsweredLowestFirst(file: seq<byte>, size: nat, st: State, num: uint64)
    requires size > 0 && st.finished && Canonical(st.retrans) && !Wraps(st.retrans, num)
    ensures var s := Members(st.retrans) + {num};
      var next := Step(file, size, st, Some(num));
      && next.log == st.log + [Took(num), Resent(Least(s), Segment(file, Least(s), size))]
      && Canonical(next.retrans) && Members(next.retrans) == s - {Least(s)}
  {
    hide Segment, Deleted, Has, Canonical, Added, Wraps;
    var p := Added(st.retrans, num);
    AddedIsUnionIff(st.retrans, num);
    AddsMembers(p, st.retrans, num);
    AddedNotEmpty(st.retrans, num, 0, 0);
    assert p != [] by { AddedUnfold(st.retrans, num); }
    LeastIsFirst(p);
    DeletedIsDifference(p, p[0].low);
    RemovesMembers(Deleted(p, p[0].low), p, p[0].low);
  }

  lemma AddedUnfold(p: seq<Piece>, num: uint64)
    ensures Added(p, num) == AddedFrom(p, num, 0, 0)
  {
  }

  function ResendTotal(log: seq<Event>): nat {
    if log == [] then 0
    else ResendTotal(log[..|log| - 1]) + if log[|log| - 1].Resent? then 1 else 0
  }

  lemma ResendTotalAppend(log: seq<Event>, e: Event)
    ensures ResendTotal(log + [e]) == ResendTotal(log) + if e.Resent? then 1 else 0
  {
    assert (log + [e])[..|log|] == log;
  }

  /** The rounds after the first pass that found a request or something left to send. */
  function BusyRounds(file: seq<byte>, size: nat, requests: seq<Option<uint64>>): nat
    requires size > 0
  {
    if requests == [] then 0
    else
      var n := |requests| - 1;
      BusyRounds(file, size, requests[..n])
      + if n > NumSegments(|file|, size) + 1
           && (requests[n].Some? || Run(file, size, requests[..n]).retrans != []) then 1 else 0
  }

  lemma ResendsInRound(file: seq<byte>, size: nat, st: State, request: Option<uint64>)
    requires size > 0
    ensures ResendTotal(Step(file, size, st, request).log)
         == ResendTotal(st.log)
            + if st.finished && (request.Some? || st.retrans != []) then 1 else 0
  {
    hide Segment, NumSegments, Deleted, Added, ResendTotal;
    var mid, next := TakeIn(st, request), Step(file, size, st, request);
    if request.Some? {
      ResendTotalAppend(st.log, Took(request.value));
    }
    if st.finished {
      RoundAfterPass(file, size, st, request);
    }
    if next.log != mid.log {
      var e := next.log[|mid.log|];
      assert next.log == mid.log + [e];
      ResendTotalAppend(mid.log, e);
    }
  }

  /** All runs: as many segments are sent again as there are busy rounds after the first pass, so
      none of them is spent on a request alone. */
  lemma {:induction false} ResendsOfRun(file: seq<byte>, size: nat, requests: seq<Option<uint64>>)
    requires size > 0
    ensures ResendTotal(Run(file, size, requests).log) == BusyRounds(file, size, requests)
  {
    hide NumSegments, Step, ResendTotal;
    if requests == [] {
      NothingResent();
    } else {
      var n := |requests| - 1;
      var st := Run(file, size, requests[..n]);
      ResendsOfRun(file, size, requests[..n]);
      FirstPassOfRun(file, size, requests[..n]);
      ResendsInRound(file, size, st, requests[n]);
    }
  }

  lemma NothingResent()
    ensures ResendTotal([]) == 0
  {
  }

  /** The numbers a log says were taken in, in order. */
  function Taken(log: seq<Event>): seq<nat> {
    if log == [] then []
    else Taken(log[..|log| - 1]) + if log[|log| - 1].Took? then [log[|log| - 1].num] else []
  }

  lemma TakenAppend(log: seq<Event>, e: Event)
    ensures Taken(log + [e]) == Taken(log) + if e.Took? then [e.num] else []
  {
    assert (log + [e])[..|log|] == log;
  }

  function Requested(requests: seq<Option<uint64>>): seq<nat> {
    if requests == [] then []
    else
      var n := |requests| - 1;
      Requested(requests[..n]) + if requests[n].Some? then [requests[n].value] else []
  }

  lemma TakenInRound(file: seq<byte>, size: nat, st: State, request: Option<uint64>)
    requires size > 0
    ensures Taken(Step(file, size, st, request).log)
         == Taken(st.log) + if request.Some? then [request.value] else []
  {
    hide Segment, NumSegments, Deleted, Added, Taken;
    var mid, next := TakeIn(st, request), Step(file, size, st, request);
    if request.Some? {
      TakenAppend(st.log, Took(request.value));
    }
    if next.log != mid.log {
      var e := next.log[|mid.log|];
      assert next.log == mid.log + [e];
      TakenAppend(mid.log, e);
    }
  }

  /** All runs: every request is taken in, once and in order, also during the first pass. */
  lemma {:induction false} RequestsTaken(file: seq<byte>, size: nat, requests: seq<Option<uint64>>)
    requires size > 0
    ensures Taken(Run(file, size, requests).log) == Requested(requests)
  {
    hide Step;
    if requests != [] {
      var n := |requests| - 1;
      RequestsTaken(file, size, requests[..n]);
      TakenInRound(file, size, Run(file, size, requests[..n]), requests[n]);
    }
  }

  // ----- the thread without lists and flags

  /** The numbers that were asked for and not sent again since. */
  function Waiting(log: seq<Event>): set<nat> {
    if log == [] then {}
    else
      var w := Waiting(log[..|log| - 1]);
      match log[|log| - 1]
      case Took(n) => w + {n}
      case Sent(_, _) => w
      case Resent(n, _) => w - {n}
  }

  lemma {:induction false} WaitingIsPending(log: seq<Event>, n: nat)
    ensures n in Waiting(log) <==> Pending(log, n)
  {
    if log != [] {
      WaitingIsPending(log[..|log| - 1], n);
    }
  }

  /** What the thread sends in round `k`, counted from zero, of a transfer of N segments: segment
      `k + 1` up to number N + 1, then in one round nothing, then the lowest number waited for. */
  ghost function Sends(file: seq<byte>, size: nat, waiting: set<nat>, k: nat): seq<Event>
    requires size > 0
  {
    var n := NumSegments(|file|, size);
    if k <= n then [Sent(k + 1, Segment(file, k + 1, size))]
    else if k == n + 1 || waiting == {} then []
    else [Resent(Least(waiting), Segment(file, Least(waiting), size))]
  }

  /** The log of a transfer, said of logs alone. */
  ghost function History(file: seq<byte>, size: nat, requests: seq<Option<uint64>>): seq<Event>
    requires size > 0
  {
    if requests == [] then []
    else
      var k := |requests| - 1;
      var log := History(file, size, requests[..k]) + TookOf(requests[k]);
      log + Sends(file, size, Waiting(log), k)
  }

  /** One round of a state whose list holds what its log says is waited for. */
  lemma RoundSends(file: seq<byte>, size: nat, st: State, k: nat)
    requires size > 0 && Canonical(st.retrans) && Members(st.retrans) == Waiting(st.log)
    requires st.high == Min(k, NumSegments(|file|, size) + 1)
    requires st.finished <==> k > NumSegments(|file|, size) + 1
    ensures Advance(file, size, st).log == st.log + Sends(file, size, Waiting(st.log), k)
  {
    hide Segment, NumSegments, Members, Canonical, Deleted, Waiting, Least;
    if st.finished {
      EmptyIffNoMembers(st.retrans);
      if st.retrans != [] {
        LeastIsFirst(st.retrans);
      } else {
        assert st.log + [] == st.log;
      }
    } else if k == NumSegments(|file|, size) + 1 {
      assert st.log + [] == st.log;
    }
  }

  lemma ConservedIsWaiting(st: State)
    requires Conserved(st.retrans, st.log)
    ensures Canonical(st.retrans) && Members(st.retrans) == Waiting(st.log)
  {
    hide Pending, Has, Waiting, Canonical;
    forall n: nat
      ensures n in Members(st.retrans) <==> n in Waiting(st.log)
    {
      WaitingIsPending(st.log, n);
    }
  }

  /** With safe requests the log of a run is the history, and the list holds what it waits for. */
  lemma {:induction false} RunIsHistory(file: seq<byte>, size: nat, requests: seq<Option<uint64>>)
    requires size > 0 && SafeRequests(file, size, requests)
    ensures var st := Run(file, size, requests);
      && st.log == History(file, size, requests)
      && Canonical(st.retrans) && Members(st.retrans) == Waiting(st.log)
  {
    hide Advance, Conserved, Wraps, Added, Sends, Waiting, Members, Canonical;
    ConservedInRun(file, size, requests);
    ConservedIsWaiting(Run(file, size, requests));
    if requests != [] {
      var k := |requests| - 1;
      var st := Run(file, size, requests[..k]);
      var mid := TakeIn(st, requests[k]);
      SafePrefix(file, size, requests, k);
      RunIsHistory(file, size, requests[..k]);
      FirstPassOfRun(file, size, requests[..k]);
      ConservedInRun(file, size, requests[..k]);
      if requests[k].Some? {
        TookKeepsConserved(st.retrans, st.log, requests[k].value);
      } else {
        assert st.log + [] == st.log;
      }
      ConservedIsWaiting(mid);
      RoundSends(file, size, mid, k);
    }
  }

  /** Which requests are safe, said of the history: none is for zero while the largest number is
      waited for and either one is not or everything else is. */
  lemma {:induction false} SafeIff(file: seq<byte>, size: nat, requests: seq<Option<uint64>>)
    requires size > 0
    ensures SafeRequests(file, size, requests)
      <==> forall i :: 0 <= i < |requests| && requests[i].Some? ==>
             !SetWraps(Waiting(History(file, size, requests[..i])), requests[i].value)
  {
    hide Run, History, Wraps, SetWraps, Waiting;
    if requests != [] {
      var n := |requests| - 1;
      var front := requests[..n];
      SafeIff(file, size, front);
      assert forall i :: 0 <= i < n ==> requests[..i] == front[..i] && requests[i] == front[i];
      if SafeRequests(file, size, front) {
        RunIsHistory(file, size, front);
        var st := Run(file, size, front);
        if requests[n].Some? {
          WrapsIff(st.retrans, requests[n].value);
        }
      }
    }
  }

  // ----- after a request that wrapped

  /** The same transmission `k` times. */
  function Repeated(e: Event, k: nat): (es: seq<Event>)
    ensures |es| == k && forall i :: 0 <= i < k ==> es[i] == e
  {
    seq(k, _ => e)
  }

  /** One quiet round on a spoiled list: the canonical part goes on draining; once it is empty the
      low bound of the last piece is sent and the list stays as it is. */
  lemma SpoiledRound(file: seq<byte>, size: nat, st: State, good: seq<Piece>, last: Piece, next: State)
    requires size > 0 && st.finished && next == Step(file, size, st, None)
    requires st.retrans == good + [last] && Canonical(good) && last.low != 0 && last.high == 0
    ensures good == [] ==>
      next == st.(log := st.log + [Resent(last.low, Segment(file, last.low, size))])
    ensures good != [] ==>
      var rest := Step(file, size, st.(retrans := good), None);
      next == rest.(retrans := rest.retrans + [last])
  {
    hide Segment, Deleted, Canonical;
    var q := st.retrans;
    DeletedKeepsSpoiled(good, last, q[0].low);
    if good == [] {
      assert q == [last];
      assert Deleted([], last.low) == [] by { NothingToDelete(last.low); }
    } else {
      assert q[0] == good[0];
    }
  }

  lemma NothingToDelete(n: uint64)
    ensures Deleted([], n) == []
  {
  }

  /** After a wrap the list never drains: the canonical part is answered as before, and then every
      further quiet round sends the same number again, for ever. */
  lemma {:induction false} StuckAfterWrap(file: seq<byte>, size: nat, st: State, good: seq<Piece>, last: Piece, extra: nat)
    requires size > 0 && st.finished
    requires st.retrans == good + [last] && Canonical(good) && last.low != 0 && last.high == 0
    ensures Quiet(file, size, st, |Members(good)| + extra)
         == st.(retrans := [last],
                log := st.log + Resends(file, size, Ascending(Members(good)))
                       + Repeated(Resent(last.low, Segment(file, last.low, size)), extra))
    decreases |Members(good)| + extra
  {
    hide Segment, Step, Least, Members, Canonical;
    var e := Resent(last.low, Segment(file, last.low, size));
    var next := Step(file, size, st, None);
    SpoiledRound(file, size, st, good, last, next);
    EmptyIffNoMembers(good);
    if good == [] {
      assert st.log + [] == st.log;
      assert [] + [last] == [last];
      if extra == 0 {
        assert st.log + Repeated(e, 0) == st.log;
      } else {
        StuckAfterWrap(file, size, next, good, last, extra - 1);
        assert next.log + [] == next.log;
        assert [e] + Repeated(e, extra - 1) == Repeated(e, extra);
        assert st.log + [e] + Repeated(e, extra - 1) == st.log + ([e] + Repeated(e, extra - 1));
      }
    } else {
      var clean := st.(retrans := good);
      var rest := Step(file, size, clean, None);
      QuietStep(file, size, clean, rest);
      StuckAfterWrap(file, size, next, rest.retrans, last, extra);
    }
  }

  // ----- which lists drain

  /** No piece is turned around. */
  predicate Upright(p: seq<Piece>) {
    forall i :: 0 <= i < |p| ==> p[i].low <= p[i].high
  }

  function TotalWidth(p: seq<Piece>): int {
    if p == [] then 0 else p[0].high - p[0].low + 1 + TotalWidth(p[1..])
  }

  /** Deleting the first low bound narrows the first piece by one. */
  lemma FirstNarrowed(p: seq<Piece>)
    requires p != [] && Upright(p)
    ensures var q := Deleted(p, p[0].low);
      Upright(q) && TotalWidth(q) == TotalWidth(p) - 1
  {
    var x, rest := p[0], p[1..];
    assert p[..0] == [];
    if x.low < x.high {
      var q := [Piece(x.low + 1, x.high)] + rest;
      assert Deleted(p, x.low) == q && q[1..] == rest;
    } else {
      assert Deleted(p, x.low) == rest;
    }
  }

  lemma WidthPositive(p: seq<Piece>)
    requires Upright(p)
    ensures TotalWidth(p) >= 0 && (TotalWidth(p) == 0 <==> p == [])
  {
    if p != [] {
      WidthPositive(p[1..]);
    }
  }

  lemma {:induction false} TurnedStays(p: seq<Piece>, num: uint64, i: nat)
    requires i <= |p| && !Upright(p)
    ensures !Upright(DeletedFrom(p, num, i))
    decreases |p| - i
  {
    hide Remainder;
    if i < |p| {
      if p[i].low <= num <= p[i].high {
        var j :| 0 <= j < |p| && p[j].low > p[j].high;
        var r := Remainder(p[i], num);
        var q := p[..i] + r + p[i + 1..];
        assert q[if j < i then j else j - 1 + |r|] == p[j];
      } else {
        TurnedStays(p, num, i + 1);
      }
    }
  }

  lemma {:induction false} UprightDrains(file: seq<byte>, size: nat, st: State)
    requires size > 0 && st.finished && Upright(st.retrans)
    ensures TotalWidth(st.retrans) >= 0
    ensures Quiet(file, size, st, TotalWidth(st.retrans)).retrans == []
    decreases TotalWidth(st.retrans)
  {
    hide Segment, Deleted, Upright, TotalWidth;
    WidthPositive(st.retrans);
    if st.retrans != [] {
      FirstNarrowed(st.retrans);
      var next := Step(file, size, st, None);
      WidthPositive(next.retrans);
      UprightDrains(file, size, next);
    }
  }

  lemma {:induction false} TurnedNeverDrains(file: seq<byte>, size: nat, st: State, k: nat)
    requires size > 0 && st.finished && !Upright(st.retrans)
    ensures !Upright(Quiet(file, size, st, k).retrans)
    decreases k
  {
    hide Segment, DeletedFrom, Upright;
    if k > 0 {
      if st.retrans != [] {
        TurnedStays(st.retrans, st.retrans[0].low, 0);
      }
      TurnedNeverDrains(file, size, Step(file, size, st, None), k - 1);
    }
  }

  /** For every list there is: left alone after the first pass, it empties some time exactly when
      no piece is turned around. */
  lemma DrainsIff(file: seq<byte>, size: nat, st: State)
    requires size > 0 && st.finished
    ensures (exists k :: Quiet(file, size, st, k).retrans == []) <==> Upright(st.retrans)
  {
    hide Quiet, TotalWidth;
    if Upright(st.retrans) {
      UprightDrains(file, size, st);
    } else {
      forall k: nat
        ensures Quiet(file, size, st, k).retrans != []
      {
        TurnedNeverDrains(file, size, st, k);
      }
    }
  }

  // ----- the pair of requests

  function Nothing(k: nat): (r: seq<Option<uint64>>)
    ensures |r| == k && forall i :: 0 <= i < k ==> r[i] == None
  {
    seq(k, _ => None)
  }

  /** The largest number asked for, then zero, then nothing more. */
  function FatalRequests(k: nat): seq<Option<uint64>> {
    [Some(UINT64_MAX), Some(0)] + Nothing(k)
  }

  lemma {:induction false} FatalState(file: seq<byte>, size: nat, k: nat)
    requires size > 0
    ensures Run(file, size, FatalRequests(k)).retrans == [Piece(UINT64_MAX, 0)]
  {
    hide NumSegments, Segment;
    var rs := FatalRequests(k);
    AddZeroAfterMax();
    if k == 0 {
      PassTakesTwo(file, size);
    } else {
      FatalState(file, size, k - 1);
      assert rs[..|rs| - 1] == FatalRequests(k - 1);
    }
  }

  /** The first two rounds of any thread belong to the first pass. */
  lemma PassTakesTwo(file: seq<byte>, size: nat)
    requires size > 0
    ensures Run(file, size, FatalRequests(0)).retrans == [Piece(UINT64_MAX, 0)]
  {
    hide NumSegments, Segment, Advance;
    var r1: seq<Option<uint64>>, r2 := [Some(UINT64_MAX)], FatalRequests(0);
    assert r2[..1] == r1 && r1[..0] == [];
    FirstPassOfRun(file, size, []);
    FirstPassOfRun(file, size, r1);
    assert Added([], UINT64_MAX) == [Piece(UINT64_MAX, UINT64_MAX)];
    AddZeroAfterMax();
    UnfinishedKeepsList(file, size, TakeIn(Initial(), Some(UINT64_MAX)));
    UnfinishedKeepsList(file, size, TakeIn(Run(file, size, r1), Some(0)));
  }

  lemma UnfinishedKeepsList(file: seq<byte>, size: nat, st: State)
    requires size > 0 && !st.finished
    ensures Advance(file, size, st).retrans == st.retrans
  {
  }

  lemma ResendCountAppend(log: seq<Event>, e: Event, n: nat)
    ensures ResendCount(log + [e], n) == ResendCount(log, n) + if e.Resent? && e.num == n then 1 else 0
  {
    assert (log + [e])[..|log|] == log;
  }

  /** With these two requests, for every file: the first was made once, and from the end of the
      first pass on it is answered in every round; the second is never answered. */
  lemma {:induction false} FatalPair(file: seq<byte>, size: nat, k: nat)
    requires size > 0
    ensures !SafeRequests(file, size, FatalRequests(k))
    ensures var st := Run(file, size, FatalRequests(k));
      var rounds, pass := k + 2, NumSegments(|file|, size) + 2;
      && ResendCount(st.log, UINT64_MAX) == (if rounds <= pass then 0 else rounds - pass)
      && ResendCount(st.log, 0) == 0
  {
    hide NumSegments, Step, ResendCount, SafeRequests;
    FatalUnsafe(file, size, k);
    var rs := FatalRequests(k);
    if k == 0 {
      NoResendYet(file, size);
    } else {
      assert rs[..|rs| - 1] == FatalRequests(k - 1) && rs[|rs| - 1] == None;
      FatalPair(file, size, k - 1);
      FatalState(file, size, k - 1);
      FirstPassOfRun(file, size, FatalRequests(k - 1));
      FatalRound(file, size, Run(file, size, FatalRequests(k - 1)), Run(file, size, rs));
    }
  }

  lemma FatalRound(file: seq<byte>, size: nat, st: State, next: State)
    requires size > 0 && st.retrans == [Piece(UINT64_MAX, 0)] && next == Step(file, size, st, None)
    ensures ResendCount(next.log, UINT64_MAX)
         == ResendCount(st.log, UINT64_MAX) + if st.finished then 1 else 0
    ensures ResendCount(next.log, 0) == ResendCount(st.log, 0)
  {
    hide NumSegments, Segment, Deleted, ResendCount;
    if next.log != st.log {
      var e := next.log[|st.log|];
      assert next.log == st.log + [e];
      ResendCountAppend(st.log, e, UINT64_MAX);
      ResendCountAppend(st.log, e, 0);
    }
  }

  lemma FatalUnsafe(file: seq<byte>, size: nat, k: nat)
    requires size > 0
    ensures !SafeRequests(file, size, FatalRequests(k))
  {
    hide NumSegments, Segment, Advance;
    var rs := FatalRequests(k);
    var r1: seq<Option<uint64>> := [Some(UINT64_MAX)];
    assert rs[..1] == r1 && r1[..0] == [];
    assert Added([], UINT64_MAX) == [Piece(UINT64_MAX, UINT64_MAX)];
    UnfinishedKeepsList(file, size, TakeIn(Initial(), Some(UINT64_MAX)));
    assert rs[1].Some? && Wraps(Run(file, size, rs[..1]).retrans, rs[1].value);
  }

  lemma NoResendYet(file: seq<byte>, size: nat)
    requires size > 0
    ensures var log := Run(file, size, FatalRequests(0)).log;
      ResendCount(log, UINT64_MAX) == 0 && ResendCount(log, 0) == 0
  {
    hide NumSegments, Segment, Added;
    var r1: seq<Option<uint64>>, r2 := [Some(UINT64_MAX)], FatalRequests(0);
    assert r2[..1] == r1 && r1[..0] == [];
    FirstPassOfRun(file, size, r1);
    var a, b := Run(file, size, r1), Run(file, size, r2);
    LogWithoutResends(file, size, Initial(), Some(UINT64_MAX), a);
    LogWithoutResends(file, size, a, Some(0), b);
  }

  lemma LogWithoutResends(file: seq<byte>, size: nat, st: State, request: Option<uint64>, next: State)
    requires size > 0 && !st.finished && next == Step(file, size, st, request)
    ensures forall n: nat :: ResendCount(next.log, n) == ResendCount(st.log, n)
  {
    hide NumSegments, Segment, Added, ResendCount;
    var mid := TakeIn(st, request);
    forall n: nat
      ensures ResendCount(next.log, n) == ResendCount(st.log, n)
    {
      if request.Some? {
        ResendCountAppend(st.log, Took(request.value), n);
      }
      if next.log != mid.log {
        ResendCountAppend(mid.log, Sent(mid.high + 1, Segment(file, mid.high + 1, size)), n);
      }
    }
  }
}
