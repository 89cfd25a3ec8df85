/** The sending thread itself (fork_server_channel in server_help.c): sections, messages and
    frames put together. Each round of its loop is one step of the transition system, and the
    bytes it writes are the frames of what the log says was sent. */
module ServerChannel {
  import opened Arithmetic
  import opened Bytes
  import opened ByteOrder
  import opened Sections
  import opened FileHandle
  import opened SenderRuns
  import opened Messages
  import opened MessageLaws
  import opened Frames
  import ShipFile

  /** `m` is the message form_msg makes to send what `e` records. */
  predicate MessageFor(m: Message, e: Event) {
    && !e.Took? && Formed(m)
    && m.head.chanType == 0 && m.head.dataType == 0
    && m.head.segmentNum == e.num && m.content == e.data
  }

  /** The messages sent are those the log records, in order. */
  ghost predicate Records(sent: seq<Message>, events: seq<Event>) {
    && AllFormed(sent)
    && |sent| == |events|
    && forall i :: 0 <= i < |sent| ==> MessageFor(sent[i], events[i])
  }

  /** All messages go from one end of the channel to the other. */
  predicate Addressed(sent: seq<Message>, from: uint64, to: uint64) {
    forall i :: 0 <= i < |sent| ==> sent[i].head.sendID == from && sent[i].head.recvID == to
  }

  /** A section that holds one run from zero. */
  lemma RunCanonical(k: uint64)
    ensures Canonical([Piece(0, k)])
  {
  }

  lemma RunExtended(p: seq<Piece>, q: seq<Piece>, k: uint64)
    requires k < UINT64_MAX && p == [Piece(0, k)] && Adds(q, p, k + 1)
    ensures q == [Piece(0, k + 1)]
  {
    var r := [Piece(0, k + 1)];
    forall n
      ensures Has(q, n) <==> Has(r, n)
    {
      HasOne(Piece(0, k), n);
      HasOne(Piece(0, k + 1), n);
    }
    CanonicalUnique(q, r);
  }

  class Channel {
    const file: seq<byte>
    const maxSize: nat
    const selfID: uint64
    const otherID: uint64
    const sendSec: Section
    const retransSec: Section
    var finishedFt: bool
    var socket: seq<byte>
    ghost var log: seq<Event>
    ghost var sent: seq<Message>

    ghost predicate Sane() {
      && maxSize > 0 && |file| < FILE_LIMIT
      && (maxSize < CONTENT_LIMIT || |file| < CONTENT_LIMIT)
      && sendSec != retransSec
    }

    /** `send_sec` is the run 0..high. */
    ghost predicate SendRun()
      reads sendSec
    {
      |sendSec.pieces| == 1 && sendSec.pieces[0].low == 0
    }

    ghost predicate Valid()
      reads this, sendSec, retransSec
    {
      && Sane() && SendRun()
      && sendSec.pieces[0].high <= NumSegments(|file|, maxSize) + 1
      && Records(sent, Transmitted(log)) && Addressed(sent, selfID, otherID)
      && socket == Stream(sent)
    }

    ghost function Abs(): State
      requires SendRun()
      reads this, sendSec, retransSec
    {
      State(sendSec.pieces[0].high, retransSec.pieces, finishedFt, log)
    }

    constructor (file: seq<byte>, maxSize: nat, selfID: uint64, otherID: uint64)
      requires maxSize > 0 && |file| < FILE_LIMIT
      requires maxSize < CONTENT_LIMIT || |file| < CONTENT_LIMIT
      ensures Valid() && Abs() == Initial()
      ensures fresh(sendSec) && fresh(retransSec)
      ensures this.file == file && this.maxSize == maxSize
      ensures this.selfID == selfID && this.otherID == otherID
    {
      this.file, this.maxSize := file, maxSize;
      this.selfID, this.otherID := selfID, otherID;
      finishedFt, socket, log, sent := false, [], [], [];
      var send := new Section();
      send.Add(0);
      sendSec := send;
      var retrans := new Section();
      retransSec := retrans;
    }

    /** form_msg and send_msg for segment `num`. */
    method Transmit(e: Endianness, num: uint64, id: uint32, ghost resent: bool)
      requires Valid()
      modifies this
      ensures Valid() && finishedFt == old(finishedFt)
      ensures var data := Segment(file, num, maxSize);
        log == old(log) + [if resent then Resent(num, data) else Sent(num, data)]
    {
      hide NumSegments, Segment, Formed, Frame, Records, Addressed, Transmitted, Stream;
      var ret, numBytes := SegmentInFileHandle(file, num, maxSize);
      var bytes := if ret.Some? then ret.value else [];
      SegmentBytesRead(file, num, maxSize, ret);
      var m := FormMsg(selfID, otherID, 0, 0, num, id, bytes);
      FormedIsShaped(m);
      var buf, len := ShipFile.MsgToCobs(e, m);
      ghost var event := if resent then Resent(num, bytes) else Sent(num, bytes);
      RecordSent(sent, log, m, event, selfID, otherID);
      ShipFile.StreamAppend(sent, m);
      socket := socket + buf[..len];
      sent, log := sent + [m], log + [event];
    }

    /** One round of the thread's loop. */
    method Round(e: Endianness, request: Option<uint64>, id: uint32)
      requires Valid()
      modifies this, sendSec, retransSec
      ensures Valid() && Abs() == Step(file, maxSize, old(Abs()), request)
    {
      hide NumSegments, Stream, Records, Advance, Added;
      if request.Some? {
        TakeRequest(request.value);
      }
      Progress(e, id);
    }

    /** What a round does after looking for a request. */
    method Progress(e: Endianness, id: uint32)
      requires Valid()
      modifies this, sendSec, retransSec
      ensures Valid() && Abs() == Advance(file, maxSize, old(Abs()))
    {
      hide NumSegments, Segment, Has, Stream, Records, Deleted;
      if finishedFt {
        var first := retransSec.GetPiece(0);
        if first.Some? {
          Retransmit(e, id);
        }
      } else {
        var high := sendSec.LastContinualHigh();
        if high < NumSegments(|file|, maxSize) + 1 {
          SendNext(e, high, id);
        } else {
          finishedFt := true;
        }
      }
    }

    /** A pending request is added to `retrans_sec`. */
    method TakeRequest(num: uint64)
      requires Valid()
      modifies this, retransSec
      ensures Valid() && Abs() == TakeIn(old(Abs()), Some(num))
    {
      hide NumSegments, Added, Canonical;
      retransSec.Add(num);
      TransmittedAppend(log, Took(num));
      assert Transmitted(log) + [] == Transmitted(log);
      log := log + [Took(num)];
    }

    /** The next segment of the first pass. */
    method SendNext(e: Endianness, high: uint64, id: uint32)
      requires Valid() && !finishedFt
      requires high == sendSec.pieces[0].high < NumSegments(|file|, maxSize) + 1
      modifies this, sendSec
      ensures Valid() && Abs() == Advance(file, maxSize, old(Abs()))
    {
      hide NumSegments, Segment, Has, Canonical, Added, Stream, Records;
      FewSegments(|file|, maxSize);
      ghost var p := sendSec.pieces;
      assert p == [Piece(0, high)];
      RunCanonical(high);
      Transmit(e, high + 1, id, false);
      sendSec.Add(high + 1);
      RunExtended(p, sendSec.pieces, high);
    }

    /** The lowest requested segment, once more. */
    method Retransmit(e: Endianness, id: uint32)
      requires Valid() && finishedFt && retransSec.pieces != []
      modifies this, retransSec
      ensures Valid() && Abs() == Advance(file, maxSize, old(Abs()))
    {
      hide NumSegments, Segment, Canonical, Deleted, Stream, Records;
      var low := retransSec.FirstLow();
      Transmit(e, low, id, true);
      retransSec.Delete(low);
    }
  }

  lemma RecordSent(sent: seq<Message>, log: seq<Event>, m: Message, e: Event, from: uint64, to: uint64)
    requires Records(sent, Transmitted(log)) && Addressed(sent, from, to)
    requires MessageFor(m, e) && m.head.sendID == from && m.head.recvID == to
    ensures AllFormed(sent)
    ensures Records(sent + [m], Transmitted(log + [e])) && Addressed(sent + [m], from, to)
  {
    hide Formed, Transmitted;
    TransmittedAppend(log, e);
  }

  lemma SegmentBytesRead(file: seq<byte>, num: nat, size: nat, ret: Option<seq<byte>>)
    requires size > 0
    requires ret.None? <==> num == 0 || num > NumSegments(|file|, size)
    requires ret.Some? ==> ret.value == Segment(file, num, size)
    ensures (if ret.Some? then ret.value else []) == Segment(file, num, size)
    ensures |Segment(file, num, size)| <= Min(size, |file|)
  {
  }

  lemma FewSegments(fileSize: nat, size: nat)
    requires size > 0
    ensures NumSegments(fileSize, size) <= fileSize
  {
    if NumSegments(fileSize, size) > 0 {
      var n := NumSegments(fileSize, size);
      SegmentRange(fileSize, size, n);
      ProductGrows(1, size, n - 1);
    }
  }

  // ----- whole runs

  /** fork_server_channel: rounds until the channel is killed. */
  method Serve(e: Endianness, c: Channel, requests: seq<Option<uint64>>, ids: nat -> uint32)
    requires c.Valid() && c.Abs() == Initial()
    modifies c, c.sendSec, c.retransSec
    ensures c.Valid() && c.Abs() == Run(c.file, c.maxSize, requests)
  {
    hide NumSegments, Stream, Step, Records;
    var i := 0;
    while i < |requests|
      invariant 0 <= i <= |requests|
      invariant c.Valid() && c.Abs() == Run(c.file, c.maxSize, requests[..i])
    {
      c.Round(e, requests[i], ids(i));
      assert requests[..i + 1][..i] == requests[..i];
      i := i + 1;
    }
    assert requests[..i] == requests;
  }

  lemma EventSendableIff(m: Message, e: Event)
    requires MessageFor(m, e)
    ensures Sendable(m) <==> TotalLength(|e.data|) <= MAX_MESSAGE_SIZE
  {
  }

  /** Every transmission fits a message that the reader's checks pass. */
  predicate AllPass(events: seq<Event>) {
    forall i :: 0 <= i < |events| && !events[i].Took? ==>
      TotalLength(|events[i].data|) <= MAX_MESSAGE_SIZE
  }

  /** What the thread wrote, split at its zeros and judged chunk by chunk, has a delivery for each
      transmission of the log exactly if all fit a message; then each comes with its segment
      number and its data. */
  lemma OutputDelivered(sent: seq<Message>, events: seq<Event>)
    requires Records(sent, events)
    ensures |Deliveries(Stream(sent))| == |events| <==> AllPass(events)
    ensures AllPass(events) ==>
      forall i :: 0 <= i < |events| ==> Delivers(Deliveries(Stream(sent))[i], events[i])
  {
    hide Deliveries, Stream, TotalLength, Formed, Sendable;
    forall i | 0 <= i < |sent|
      ensures MessageFor(sent[i], events[i])
      ensures Sendable(sent[i]) <==> TotalLength(|events[i].data|) <= MAX_MESSAGE_SIZE
    {
      assert MessageFor(sent[i], events[i]);
      EventSendableIff(sent[i], events[i]);
    }
    EndToEnd(sent);
    AllDelivered(sent);
  }

  /** A delivery brings what an event records as sent. */
  predicate Delivers(d: Delivery, e: Event) {
    !e.Took? && d.head.segmentNum == e.num && d.content == e.data
  }

  /** Segments no longer than `size` pass if `size` does. */
  lemma {:induction false} SegmentsPass(log: seq<Event>, file: seq<byte>, size: nat)
    requires size > 0 && CarriesSegments(file, size, log) && TotalLength(size) <= MAX_MESSAGE_SIZE
    ensures AllPass(Transmitted(log))
  {
    hide Segment, TotalLength;
    if log != [] {
      var n := |log| - 1;
      SegmentsPass(log[..n], file, size);
      assert log[..n + 1] == log;
      if !log[n].Took? {
        SegmentIsShort(file, log[n].num, size);
        ShorterPasses(|log[n].data|, size);
      }
    }
  }

  lemma SegmentIsShort(file: seq<byte>, num: nat, size: nat)
    requires size > 0
    ensures |Segment(file, num, size)| <= size
  {
  }

  lemma ShorterPasses(len: nat, size: nat)
    requires len <= size && TotalLength(size) <= MAX_MESSAGE_SIZE
    ensures TotalLength(len) <= MAX_MESSAGE_SIZE
  {
  }

  lemma {:induction false} ContentsAppend(ds: seq<Delivery>, d: Delivery)
    ensures ShipFile.Contents(ds + [d]) == ShipFile.Contents(ds) + d.content
  {
    if ds == [] {
      assert ds + [d] == [d] && [d][1..] == [];
    } else {
      ContentsAppend(ds[1..], d);
      assert (ds + [d])[1..] == ds[1..] + [d];
    }
  }

  lemma {:induction false} ContentsAreData(ds: seq<Delivery>, es: seq<Event>)
    requires |ds| == |es| && forall i :: 0 <= i < |ds| ==> Delivers(ds[i], es[i])
    ensures ShipFile.Contents(ds) == DataOf(es)
  {
    if ds != [] {
      var n := |ds| - 1;
      assert Delivers(ds[n], es[n]);
      ContentsAreData(ds[..n], es[..n]);
      ContentsAppend(ds[..n], ds[n]);
      assert ds == ds[..n] + [ds[n]];
    }
  }

  /** What a list of deliveries holds of a file cut into segments: the first N + 1 are segments
      1..N + 1 in order, and their contents put together are the file. */
  ghost predicate HoldsFile(ds: seq<Delivery>, file: seq<byte>, size: nat)
    requires size > 0
  {
    var n := NumSegments(|file|, size) + 1;
    && n <= |ds|
    && (forall i :: 0 <= i < n ==> ds[i].head.segmentNum == i + 1)
    && ShipFile.Contents(ds[..n]) == file
  }

  /** Once the first pass is over, whatever requests came in, what splitting and judging the
      thread's output delivers holds the file. What the reader, with its buffer, makes of it is
      in Transfer. */
  lemma FileReachesReader(file: seq<byte>, size: nat, requests: seq<Option<uint64>>, sent: seq<Message>)
    requires size > 0 && Reachable(|file|, size)
    requires Run(file, size, requests).finished
    requires Records(sent, Transmitted(Run(file, size, requests).log))
    requires AllPass(Transmitted(Run(file, size, requests).log))
    ensures HoldsFile(Deliveries(Stream(sent)), file, size)
  {
    hide Run, Deliveries, Stream, TotalLength, NumSegments, Segment, FirstPass, Transmitted, Reachable,
         ShipFile.Contents, ResentAfterPass, DataOf, AllPass;
    var log := Run(file, size, requests).log;
    var n := NumSegments(|file|, size) + 1;
    FirstPassOfRun(file, size, requests);
    FinishedPassSentFile(file, size, requests);
    FirstPassIsFirst(log, n);
    OutputDelivered(sent, Transmitted(log));
    var ds := Deliveries(Stream(sent));
    assert Transmitted(log)[..n] == FirstPass(log);
    forall i | 0 <= i < n
      ensures Delivers(ds[i], FirstPass(log)[i])
    {
      assert Delivers(ds[i], Transmitted(log)[i]);
    }
    ContentsAreData(ds[..n], FirstPass(log));
    SegmentNumbers(file, size, n);
  }

  lemma {:induction false} SegmentNumbers(file: seq<byte>, size: nat, k: nat)
    requires size > 0
    ensures forall i :: 0 <= i < k ==> Segments(file, size, k)[i].num == i + 1
  {
    if k > 0 {
      SegmentNumbers(file, size, k - 1);
    }
  }
}
