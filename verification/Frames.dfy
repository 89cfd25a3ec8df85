/** Messages on the wire (socket_msg_help.c) and the reader's view of a byte stream
    (read_blocks.c).

    `Deliveries` is the reader's specification: split the stream at zeros, judge each chunk
    alone, keep what the valid ones carry. The lemmas say what that gives on streams of formed
    messages and how far damage to a stream can reach.
 */
module Frames {
  import opened Bytes
  import opened CobsBlocks
  import opened CobsDecoding
  import opened Parity
  import opened Messages
  import opened MessageLaws
  import opened HandleErrors

  /** What a received message carries, its trailer apart. */
  datatype Delivery = Delivery(head: Header, content: seq<byte>, vparity: seq<uint64>, hparity: seq<byte>)

  function Carried(m: Message): Delivery {
    Delivery(m.head, m.content, m.vparity, m.hparity)
  }

  /** What parsing and validating decoded bytes gives: one delivery or none. */
  function JudgeBytes(x: seq<byte>): (ds: seq<Delivery>)
    ensures |ds| <= 1
  {
    if Parseable(x) && Validates(HeaderAt(x, 0), |x|) then [Carried(MessageIn(x))] else []
  }

  /** What one chunk, without its delimiter, delivers. */
  function Judge(w: seq<byte>): (ds: seq<Delivery>)
    ensures |ds| <= 1
  {
    if w != [] && Accepted(w) then JudgeBytes(Meaning(Parse(w))) else []
  }

  function FirstZero(s: seq<byte>): (k: nat)
    ensures k <= |s| && (k < |s| ==> s[k] == 0)
    ensures forall i :: 0 <= i < k ==> s[i] != 0
  {
    if s == [] || s[0] == 0 then 0 else 1 + FirstZero(s[1..])
  }

  /** What a stream delivers; bytes after the last delimiter are dropped. */
  function Deliveries(s: seq<byte>): seq<Delivery>
    decreases |s|
  {
    var k := FirstZero(s);
    if k == |s| then [] else Judge(s[..k]) + Deliveries(s[k + 1..])
  }

  /** A stream at a frame boundary. */
  predicate Closed(s: seq<byte>) {
    s == [] || s[|s| - 1] == 0
  }

  // ----- frame isolation

  lemma {:induction false} FirstZeroIs(s: seq<byte>, k: nat)
    requires k <= |s| && (k < |s| ==> s[k] == 0)
    requires forall i :: 0 <= i < k ==> s[i] != 0
    ensures FirstZero(s) == k
  {
    if k > 0 {
      FirstZeroIs(s[1..], k - 1);
    }
  }

  lemma FirstFrame(f: seq<byte>, q: seq<byte>)
    requires ZeroFree(f)
    ensures Deliveries(f + [0] + q) == Judge(f) + Deliveries(q)
  {
    hide Judge;
    var s := f + [0] + q;
    assert s[..|f|] == f && s[|f| + 1..] == q;
    FirstZeroIs(s, |f|);
  }

  lemma NoFrame(s: seq<byte>)
    requires ZeroFree(s)
    ensures Deliveries(s) == []
  {
    hide Judge;
    assert s[..|s|] == s;
    FirstZeroIs(s, |s|);
  }

  lemma {:induction false} DeliveriesConcat(p: seq<byte>, q: seq<byte>)
    requires Closed(p)
    ensures Deliveries(p + q) == Deliveries(p) + Deliveries(q)
    decreases |p|
  {
    hide Judge, Deliveries;
    if p == [] {
      NoFrame(p);
      assert p + q == q;
    } else {
      var k := FirstZero(p);
      var f, rest := p[..k], p[k + 1..];
      DeliveriesConcat(rest, q);
      FirstFrame(f, rest);
      FirstFrame(f, rest + q);
      assert p == f + [0] + rest;
      assert p + q == f + [0] + (rest + q);
    }
  }

  /** A frame contributes what it delivers alone, between what the streams around it deliver. */
  lemma FrameIsolation(p: seq<byte>, f: seq<byte>, q: seq<byte>)
    requires Closed(p) && ZeroFree(f)
    ensures Deliveries(p + (f + [0] + q)) == Deliveries(p) + Judge(f) + Deliveries(q)
  {
    hide Judge, Deliveries;
    DeliveriesConcat(p, f + [0] + q);
    FirstFrame(f, q);
  }

  /** Damage that keeps a frame one frame changes the count by at most one and leaves what the
      other frames deliver as it was. */
  lemma DamagedFrame(p: seq<byte>, f: seq<byte>, g: seq<byte>, q: seq<byte>)
    requires Closed(p) && ZeroFree(f) && ZeroFree(g)
    ensures var before, after := Deliveries(p + (f + [0] + q)), Deliveries(p + (g + [0] + q));
      && before == Deliveries(p) + Judge(f) + Deliveries(q)
      && after == Deliveries(p) + Judge(g) + Deliveries(q)
      && -1 <= |after| - |before| <= 1
  {
    hide Judge, Deliveries;
    FrameIsolation(p, f, q);
    FrameIsolation(p, g, q);
  }

  /** Any one byte of a stream replaced by any other moves the count by at most two, and by at
      most one if no delimiter comes or goes. */
  lemma {:induction false} SingleByteDamage(s: seq<byte>, i: nat, b: byte)
    requires i < |s|
    ensures -2 <= |Deliveries(s[i := b])| - |Deliveries(s)| <= 2
    ensures (s[i] == 0 <==> b == 0) ==> -1 <= |Deliveries(s[i := b])| - |Deliveries(s)| <= 1
    decreases |s|
  {
    hide Judge, Deliveries;
    var k := FirstZero(s);
    if k < i {
      var f, rest := s[..k], s[k + 1..];
      assert s == f + [0] + rest;
      FirstFrame(f, rest);
      FirstFrame(f, rest[i - k - 1 := b]);
      assert s[i := b] == f + [0] + rest[i - k - 1 := b];
      SingleByteDamage(rest, i - k - 1, b);
    } else if i < k && k == |s| {
      DamageInTail(s, i, b);
    } else if i < k {
      DamageInFrame(s[..k], i, b, s[k + 1..]);
      assert s == s[..k] + [0] + s[k + 1..];
      assert s[i := b] == s[..k][i := b] + [0] + s[k + 1..];
    } else {
      assert s[..k + 1] == s[..k] + [0];
      DelimiterDamage(s[..k], s[k + 1..], b);
      assert s == s[..k] + [0] + s[k + 1..];
      assert s[i := b] == s[..k] + [b] + s[k + 1..];
    }
  }

  lemma DamageInFrame(f: seq<byte>, i: nat, b: byte, q: seq<byte>)
    requires i < |f| && ZeroFree(f)
    ensures var d := |Deliveries(f[i := b] + [0] + q)| - |Deliveries(f + [0] + q)|;
      -1 <= d <= if b == 0 then 2 else 1
  {
    hide Judge, Deliveries;
    FirstFrame(f, q);
    if b != 0 {
      FirstFrame(f[i := b], q);
    } else {
      var f1, f2 := f[..i], f[i + 1..];
      FirstFrame(f1, f2 + [0] + q);
      FirstFrame(f2, q);
      assert f[i := b] + [0] + q == f1 + [0] + (f2 + [0] + q);
    }
  }

  lemma DamageInTail(s: seq<byte>, i: nat, b: byte)
    requires i < |s| && FirstZero(s) == |s|
    ensures 0 <= |Deliveries(s[i := b])| - |Deliveries(s)| <= 1
    ensures b != 0 ==> |Deliveries(s[i := b])| == |Deliveries(s)|
  {
    hide Judge, Deliveries;
    assert s[..|s|] == s;
    NoFrame(s);
    if b != 0 {
      NoFrame(s[i := b]);
    } else {
      var f, rest := s[..i], s[i + 1..];
      FirstFrame(f, rest);
      NoFrame(rest);
      assert s[i := b] == f + [0] + rest;
    }
  }

  lemma DelimiterDamage(f: seq<byte>, rest: seq<byte>, b: byte)
    requires ZeroFree(f)
    ensures var d := |Deliveries(f + [b] + rest)| - |Deliveries(f + [0] + rest)|;
      if b == 0 then d == 0 else -2 <= d <= 1
  {
    hide Judge, Deliveries;
    FirstFrame(f, rest);
    if b != 0 {
      var k := FirstZero(rest);
      if k == |rest| {
        assert rest[..k] == rest;
        NoFrame(rest);
        NoFrame(f + [b] + rest);
      } else {
        var g, tail := rest[..k], rest[k + 1..];
        FirstFrame(g, tail);
        assert rest == g + [0] + tail;
        FirstFrame(f + [b] + g, tail);
        assert f + [b] + rest == f + [b] + g + [0] + tail;
      }
    }
  }

  /** What the reader's checks guarantee of a delivery. */
  predicate Sane(d: Delivery) {
    && d.head.chanType <= 1 && d.head.dataType <= 4
    && d.head.bodyLength <= d.head.totalLength <= MAX_MESSAGE_SIZE
    && |d.content| == d.head.contentLength < MAX_MESSAGE_SIZE
    && |d.vparity| == 4 && |d.hparity| + VPARITY_LENGTH == d.head.parityLength
  }

  /** `len` bytes are enough for what the header of `d` announces, added up in either way. */
  predicate Within(d: Delivery, len: nat) {
    && d.head.totalLength <= len
    && 2 * HEADER_LENGTH + d.head.contentLength + d.head.parityLength <= len
  }

  lemma JudgedBytesSane(x: seq<byte>)
    ensures forall i :: 0 <= i < |JudgeBytes(x)| ==> Sane(JudgeBytes(x)[i]) && Within(JudgeBytes(x)[i], |x|)
  {
    hide HeaderAt, WordsAt;
  }

  lemma WithinMore(d: Delivery, len: nat, more: nat)
    requires Within(d, len) && len <= more
    ensures Within(d, more)
  {
  }

  /** What a chunk delivers announces no more than the chunk stands for. */
  lemma JudgedSane(w: seq<byte>)
    ensures forall i :: 0 <= i < |Judge(w)| ==>
      Sane(Judge(w)[i]) && Accepted(w) && Within(Judge(w)[i], |Meaning(Parse(w))|)
    ensures forall i :: 0 <= i < |Judge(w)| ==> Within(Judge(w)[i], |w|)
  {
    hide Meaning, Parse, JudgeBytes, Sane, Within, Accepted, Wire;
    if w != [] && Accepted(w) {
      var x := Meaning(Parse(w));
      JudgedBytesSane(x);
      assert Judge(w) == JudgeBytes(x);
      WireOfParse(w);
      MeaningFits(Parse(w));
      forall i | 0 <= i < |Judge(w)|
        ensures Within(Judge(w)[i], |w|)
      {
        WithinMore(Judge(w)[i], |x|, |w|);
      }
    } else {
      assert Judge(w) == [];
    }
  }

  /** Whatever the stream, what it delivers passed the reader's checks and announces no more than
      arrived. */
  lemma {:induction false} DeliveriesSane(s: seq<byte>)
    ensures forall i :: 0 <= i < |Deliveries(s)| ==>
      Sane(Deliveries(s)[i]) && Within(Deliveries(s)[i], |s|)
    decreases |s|
  {
    hide Judge, Sane, Accepted;
    var k := FirstZero(s);
    if k < |s| {
      JudgedSane(s[..k]);
      DeliveriesSane(s[k + 1..]);
    }
  }

  // ----- streams of formed messages

  /** msg_to_cobs: the bytes that go to the socket for `m`. */
  function Frame(m: Message): seq<byte>
    requires Printable(m)
  {
    Encode(MessageBytes(m))
  }

  predicate AllFormed(ms: seq<Message>) {
    forall i :: 0 <= i < |ms| ==> Formed(ms[i])
  }

  function Stream(ms: seq<Message>): seq<byte>
    requires AllFormed(ms)
  {
    if ms == [] then []
    else
      FormedIsShaped(ms[0]);
      Frame(ms[0]) + Stream(ms[1..])
  }

  /** What the reader's checks ask of a message. */
  predicate Sendable(m: Message) {
    m.head.chanType <= 1 && m.head.dataType <= 4 && m.head.totalLength <= MAX_MESSAGE_SIZE
  }

  function CarriedBySendable(ms: seq<Message>): seq<Delivery> {
    if ms == [] then []
    else (if Sendable(ms[0]) then [Carried(ms[0])] else []) + CarriedBySendable(ms[1..])
  }

  lemma FormedEndsInZero(m: Message)
    requires Formed(m)
    ensures Printable(m)
    ensures MessageBytes(m)[|MessageBytes(m)| - 1] == 0
  {
    FormedIsShaped(m);
    ReplaceLastByte(m, 0);
  }

  /** What the reader's checks come to for bytes that hold a message: every header that announces
      the true sizes of the pieces is judged by these tests and no others. */
  lemma JudgePrinted(m: Message, rest: seq<byte>)
    requires Shaped(m) && |m.hparity| == HParityLength(|m.content|)
    ensures JudgeBytes(MessageBytes(m) + rest)
         == if |m.content| < 65536 && m.head.chanType <= 1 && m.head.dataType <= 4
               && m.head.bodyLength <= m.head.totalLength <= 65536
               && m.head.totalLength <= |MessageBytes(m)| + |rest|
            then [Carried(m)] else []
  {
    hide HeaderAt, HeaderBytes, BodyBytes, WordsAt, MessageIn;
    PrintedHolds(m, rest);
    if |m.content| < MAX_MESSAGE_SIZE {
      ParseHeld(MessageBytes(m) + rest, m);
    }
  }

  lemma JudgeFormed(m: Message)
    requires Formed(m) && Printable(m)
    ensures JudgeBytes(MessageBytes(m)) == if Sendable(m) then [Carried(m)] else []
  {
    hide HeaderBytes, BodyBytes, VParityOf, HParityOf, JudgeBytes;
    FormedIsShaped(m);
    JudgePrinted(m, []);
    assert MessageBytes(m) + [] == MessageBytes(m);
  }

  /** A chunk made of bytes that end in zero is judged as these bytes are. */
  lemma JudgeChunkOf(x: seq<byte>)
    requires x != [] && x[|x| - 1] == 0
    ensures var w := Wire(Split(x));
      ZeroFree(w) && Judge(w) == JudgeBytes(x)
  {
    hide JudgeBytes, Wire, Split, Parse, Meaning, TrailingRun;
    EncodeAccepted(x);
    MeaningOfSplit(x);
    NotOpenAfterZero(x);
    MeaningFits(Split(x));
  }

  /** Damage to the header of a formed message that leaves the sizes of the pieces: the frame is
      delivered, damage and all, exactly if these tests pass. */
  lemma DamagedHeaderJudged(m: Message, h: Header)
    requires Formed(m)
    requires h.contentLength == m.head.contentLength && h.parityLength == m.head.parityLength
    ensures var n := m.(head := h);
      && Printable(n)
      && Judge(Wire(Split(MessageBytes(n))))
         == if |m.content| < 65536 && h.chanType <= 1 && h.dataType <= 4
               && h.bodyLength <= h.totalLength <= 65536 && h.totalLength <= m.head.totalLength
            then [Carried(n)] else []
  {
    hide HeaderBytes, BodyBytes, VParityOf, HParityOf, JudgeBytes, Judge, Wire, Split;
    var n := m.(head := h);
    FormedIsShaped(m);
    JudgePrinted(n, []);
    assert MessageBytes(n) + [] == MessageBytes(n);
    EndsLikeTrailer(m, n);
    JudgeChunkOf(MessageBytes(n));
  }

  lemma EndsLikeTrailer(m: Message, n: Message)
    requires Formed(m) && Printable(n) && n.trail == m.trail
    ensures var x := MessageBytes(n);
      x[|x| - 1] == 0
  {
    hide HeaderBytes, BodyBytes, VParityOf, HParityOf;
    LastByteOfHeader(m.trail);
    var x, e := MessageBytes(n), HeaderBytes(n.trail);
    assert x[|x| - 1] == e[55];
  }

  /** The chunk of a formed message delivers it exactly when it is sendable. */
  lemma JudgeFrameOf(m: Message)
    requires Formed(m) && Printable(m)
    ensures var w := Wire(Split(MessageBytes(m)));
      ZeroFree(w) && Judge(w) == if Sendable(m) then [Carried(m)] else []
  {
    hide MessageBytes, JudgeBytes, Judge, Wire, Split, Formed;
    FormedEndsInZero(m);
    JudgeChunkOf(MessageBytes(m));
    JudgeFormed(m);
  }

  lemma NotOpenAfterZero(x: seq<byte>)
    requires x != [] && x[|x| - 1] == 0
    ensures Padded(x) == x
  {
    assert TrailingRun(x) == 0;
  }

  /** End to end: a stream of formed messages delivers the sendable ones, in order and intact. */
  lemma {:induction false} EndToEnd(ms: seq<Message>)
    requires AllFormed(ms)
    ensures Deliveries(Stream(ms)) == CarriedBySendable(ms)
  {
    hide Deliveries, Judge, Formed, MessageBytes, Wire, Split, Sendable;
    if ms == [] {
      NoFrame([]);
    } else {
      var m, rest := ms[0], ms[1..];
      FormedIsShaped(m);
      EndToEnd(rest);
      JudgeFrameOf(m);
      var w := Wire(Split(MessageBytes(m)));
      FirstFrame(w, Stream(rest));
      assert Stream(ms) == w + [0] + Stream(rest);
    }
  }

  /** As many blocks are counted as messages were sent exactly if all are sendable. */
  lemma {:induction false} AllDelivered(ms: seq<Message>)
    ensures |CarriedBySendable(ms)| <= |ms|
    ensures |CarriedBySendable(ms)| == |ms| <==> forall i :: 0 <= i < |ms| ==> Sendable(ms[i])
    ensures |CarriedBySendable(ms)| == |ms| ==>
      forall i :: 0 <= i < |ms| ==> CarriedBySendable(ms)[i] == Carried(ms[i])
  {
    hide Sendable;
    if ms != [] {
      var rest := ms[1..];
      AllDelivered(rest);
      assert forall i :: 0 < i < |ms| ==> ms[i] == rest[i - 1];
      assert forall i :: 0 <= i < |rest| ==> rest[i] == ms[i + 1];
    }
  }
}
