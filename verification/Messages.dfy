/** Messages and their byte form (message.c).

    A message is a header, a content with its two parities, and a trailer of the same shape as
    the header. `Formed` says what form_msg makes, and the functions give the byte layout.
 */
module Messages {
  import opened Bytes
  import opened Parity

  const HEADER_LENGTH: nat := 56
  const MAX_MESSAGE_SIZE: nat := 65536

  datatype Header = Header(
    mbz: uint16, chanType: byte, dataType: byte, msgID: uint32,
    totalLength: uint32, bodyLength: uint32, contentLength: uint32, parityLength: uint32,
    sendID: uint64, recvID: uint64, segmentNum: uint64, crc: uint64)

  datatype Message = Message(
    head: Header, content: seq<byte>, vparity: seq<uint64>, hparity: seq<byte>, trail: Header)

  // ----- lengths

  function ParityLength(clen: nat): nat {
    VPARITY_LENGTH + HParityLength(clen)
  }

  function BodyLength(clen: nat): nat {
    clen + ParityLength(clen)
  }

  function TotalLength(clen: nat): nat {
    HEADER_LENGTH + BodyLength(clen) + HEADER_LENGTH
  }

  // ----- messages as form_msg makes them

  /** Largest content for which the `int` word counters of the parity code do not overflow. */
  const CONTENT_LIMIT: nat := 0x8000_0000

  /** The pieces of `m` have the sizes its header says. */
  predicate Shaped(m: Message) {
    && |m.content| == m.head.contentLength
    && |m.vparity| == 4
    && |m.hparity| + VPARITY_LENGTH == m.head.parityLength
  }

  /** The header that form_msg fills in. */
  function FormedHeader(sID: uint64, rID: uint64, chant: byte, datat: byte, snum: uint64,
                        msgID: uint32, clen: nat): Header
    requires clen < CONTENT_LIMIT
  {
    Header(0, chant, datat, msgID, TotalLength(clen), BodyLength(clen), clen, ParityLength(clen),
           sID, rID, snum, 0)
  }

  /** `m` is what form_msg makes of the fields it carries. */
  predicate Formed(m: Message) {
    && |m.content| < CONTENT_LIMIT
    && m.head == FormedHeader(m.head.sendID, m.head.recvID, m.head.chanType, m.head.dataType,
                              m.head.segmentNum, m.head.msgID, |m.content|)
    && m.trail == m.head
    && VParityOf(m.content, m.vparity)
    && HParityOf(m.content, m.hparity)
  }

  /** form_msg; the random message identifier is an argument. */
  method FormMsg(sID: uint64, rID: uint64, chant: byte, datat: byte, snum: uint64,
                 msgID: uint32, content: seq<byte>) returns (m: Message)
    requires |content| < CONTENT_LIMIT
    ensures Formed(m)
    ensures m.content == content
    ensures m.head == FormedHeader(sID, rID, chant, datat, snum, msgID, |content|)
    ensures m.head.sendID == sID && m.head.recvID == rID && m.head.segmentNum == snum
    ensures m.head.chanType == chant && m.head.dataType == datat && m.head.msgID == msgID
  {
    var head := FormedHeader(sID, rID, chant, datat, snum, msgID, |content|);
    var vparity := new uint64[4];
    var hparity := new byte[head.parityLength - VPARITY_LENGTH];
    ComputeVParity(content, vparity);
    ComputeHParity(content, hparity);
    m := Message(head, content, vparity[..], hparity[..], head);
  }

  /** What form_msg makes is determined by its arguments. */
  lemma FormedUnique(m: Message, n: Message)
    requires Formed(m) && Formed(n) && m.head == n.head && m.content == n.content
    ensures m == n
  {
    VParityUnique(m.content, m.vparity, n.vparity);
    HParityUnique(m.content, m.hparity, n.hparity);
  }

  // ----- byte layout

  /** The fields in struct order: kinds and lengths first, then identifiers. */
  function LowFields(h: Header): (s: seq<byte>)
    ensures |s| == 24
  {
    ToBE(h.mbz, 2) + [h.chanType] + [h.dataType]
    + ToBE(h.msgID, 4) + ToBE(h.totalLength, 4) + ToBE(h.bodyLength, 4)
    + ToBE(h.contentLength, 4) + ToBE(h.parityLength, 4)
  }

  function HighFields(h: Header): (s: seq<byte>)
    ensures |s| == 32
  {
    ToBE(h.sendID, 8) + ToBE(h.recvID, 8) + ToBE(h.segmentNum, 8) + ToBE(h.crc, 8)
  }

  function HeaderBytes(h: Header): (s: seq<byte>)
    ensures |s| == HEADER_LENGTH
  {
    LowFields(h) + HighFields(h)
  }

  function Field16(s: seq<byte>, at: nat): uint16
    requires at + 2 <= |s|
  {
    Pow256Values();
    FromBE(s[at..at + 2])
  }

  function Field32(s: seq<byte>, at: nat): uint32
    requires at + 4 <= |s|
  {
    Pow256Values();
    FromBE(s[at..at + 4])
  }

  function Field64(s: seq<byte>, at: nat): uint64
    requires at + 8 <= |s|
  {
    Pow256Values();
    FromBE(s[at..at + 8])
  }

  /** The header at `at`. */
  function HeaderAt(s: seq<byte>, at: nat): Header
    requires at + HEADER_LENGTH <= |s|
  {
    Header(Field16(s, at), s[at + 2], s[at + 3], Field32(s, at + 4),
           Field32(s, at + 8), Field32(s, at + 12), Field32(s, at + 16), Field32(s, at + 20),
           Field64(s, at + 24), Field64(s, at + 32), Field64(s, at + 40), Field64(s, at + 48))
  }

  function WordsBytes(ws: seq<uint64>): (s: seq<byte>)
    ensures |s| == 8 * |ws|
  {
    if ws == [] then [] else WordsBytes(ws[..|ws| - 1]) + ToBE(ws[|ws| - 1], 8)
  }

  /** `m` has what msg_to_bytes copies out of it; it takes as many bytes of horizontal parity as
      the content calls for. */
  predicate Printable(m: Message) {
    && |m.content| == m.head.contentLength
    && |m.vparity| == 4
    && HParityLength(m.head.contentLength) <= |m.hparity|
  }

  function BodyBytes(m: Message): seq<byte>
    requires Printable(m)
  {
    m.content + WordsBytes(m.vparity) + m.hparity[..HParityLength(m.head.contentLength)]
  }

  function MessageBytes(m: Message): (s: seq<byte>)
    requires Printable(m)
    ensures |s| == TotalLength(m.head.contentLength)
  {
    HeaderBytes(m.head) + BodyBytes(m) + HeaderBytes(m.trail)
  }

  /** The `n` 64-bit words from `at` on. */
  function WordsAt(s: seq<byte>, at: nat, n: nat): (ws: seq<uint64>)
    requires at + 8 * n <= |s|
    ensures |ws| == n
  {
    if n == 0 then [] else WordsAt(s, at, n - 1) + [Field64(s, at + 8 * (n - 1))]
  }

  /** The input holds what its header announces. The upper bound on the parity length is where
      the C code's `int` turns negative. */
  predicate Parseable(s: seq<byte>) {
    && HEADER_LENGTH <= |s|
    && var h := HeaderAt(s, 0);
    && h.contentLength < MAX_MESSAGE_SIZE
    && VPARITY_LENGTH <= h.parityLength < VPARITY_LENGTH + 0x8000_0000
    && 2 * HEADER_LENGTH + h.contentLength + h.parityLength <= |s|
  }

  /** The message in `s`. */
  function MessageIn(s: seq<byte>): (m: Message)
    requires Parseable(s)
    ensures Shaped(m)
  {
    var h := HeaderAt(s, 0);
    var v := HEADER_LENGTH + h.contentLength;
    var t := v + h.parityLength;
    Message(h, s[HEADER_LENGTH..v], WordsAt(s, v, 4), s[v + VPARITY_LENGTH..t], HeaderAt(s, t))
  }

  // ----- layout facts

  lemma LowSlices(h: Header)
    ensures var s := LowFields(h);
      && s[0..2] == ToBE(h.mbz, 2) && s[2] == h.chanType && s[3] == h.dataType
      && s[4..8] == ToBE(h.msgID, 4) && s[8..12] == ToBE(h.totalLength, 4)
      && s[12..16] == ToBE(h.bodyLength, 4) && s[16..20] == ToBE(h.contentLength, 4)
      && s[20..24] == ToBE(h.parityLength, 4)
  {
    hide ToBE;
    var z := ToBE(h.mbz, 2) + [h.chanType] + [h.dataType];
    var a := z + ToBE(h.msgID, 4);
    var b := a + ToBE(h.totalLength, 4);
    var c := b + ToBE(h.bodyLength, 4);
    var d := c + ToBE(h.contentLength, 4);
    var s := LowFields(h);
    Fields4(d, ToBE(h.parityLength, 4), s);
    Fields4(c, ToBE(h.contentLength, 4), d);
    Fields4(b, ToBE(h.bodyLength, 4), c);
    Fields4(a, ToBE(h.totalLength, 4), b);
    Fields4(z, ToBE(h.msgID, 4), a);
    assert z[0..2] == ToBE(h.mbz, 2);
    WithinPrefix(s, d);
    WithinPrefix(s, c);
    WithinPrefix(s, b);
    WithinPrefix(s, a);
    WithinPrefix(s, z);
  }

  /** A field put at the end of others. */
  lemma Fields4(front: seq<byte>, f: seq<byte>, s: seq<byte>)
    requires s == front + f
    ensures s[|front|..|s|] == f && front <= s
  {
  }

  lemma WithinPrefix(s: seq<byte>, front: seq<byte>)
    requires front <= s
    ensures forall i, j :: 0 <= i <= j <= |front| ==> s[i..j] == front[i..j]
  {
  }

  lemma HighSlices(h: Header)
    ensures var s := HighFields(h);
      && s[0..8] == ToBE(h.sendID, 8) && s[8..16] == ToBE(h.recvID, 8)
      && s[16..24] == ToBE(h.segmentNum, 8) && s[24..32] == ToBE(h.crc, 8)
  {
    hide ToBE;
  }

  /** Where each field of a header lies. */
  lemma HeaderLayout(h: Header)
    ensures var s := HeaderBytes(h);
      && s[0..2] == ToBE(h.mbz, 2) && s[2] == h.chanType && s[3] == h.dataType
      && s[4..8] == ToBE(h.msgID, 4) && s[8..12] == ToBE(h.totalLength, 4)
      && s[12..16] == ToBE(h.bodyLength, 4) && s[16..20] == ToBE(h.contentLength, 4)
      && s[20..24] == ToBE(h.parityLength, 4)
      && s[24..32] == ToBE(h.sendID, 8) && s[32..40] == ToBE(h.recvID, 8)
      && s[40..48] == ToBE(h.segmentNum, 8) && s[48..56] == ToBE(h.crc, 8)
  {
    hide ToBE, LowFields, HighFields;
    var low, high, s := LowFields(h), HighFields(h), HeaderBytes(h);
    LowSlices(h);
    HighSlices(h);
    WithinPrefix(s, low);
    assert s[2] == low[2] && s[3] == low[3];
    SliceRight(low, high, 0, 8);
    SliceRight(low, high, 8, 16);
    SliceRight(low, high, 16, 24);
    SliceRight(low, high, 24, 32);
  }

  lemma SliceLeft(a: seq<byte>, b: seq<byte>, i: nat, j: nat)
    requires i <= j <= |a|
    ensures (a + b)[i..j] == a[i..j]
  {
  }

  lemma SliceRight(a: seq<byte>, b: seq<byte>, i: nat, j: nat)
    requires i <= j <= |b|
    ensures (a + b)[|a| + i..|a| + j] == b[i..j]
  {
  }

  lemma LowFieldsRead(h: Header)
    ensures var s := HeaderBytes(h);
      && Field16(s, 0) == h.mbz && s[2] == h.chanType && s[3] == h.dataType
      && Field32(s, 4) == h.msgID && Field32(s, 8) == h.totalLength
      && Field32(s, 12) == h.bodyLength && Field32(s, 16) == h.contentLength
      && Field32(s, 20) == h.parityLength
  {
    var a, b := LowFields(h), HighFields(h);
    LowSlices(h);
    SliceLeft(a, b, 0, 2);
    SliceLeft(a, b, 4, 8);
    SliceLeft(a, b, 8, 12);
    SliceLeft(a, b, 12, 16);
    SliceLeft(a, b, 16, 20);
    SliceLeft(a, b, 20, 24);
    Pow256Values();
    FromToBE(h.mbz, 2);
    FromToBE(h.msgID, 4);
    FromToBE(h.totalLength, 4);
    FromToBE(h.bodyLength, 4);
    FromToBE(h.contentLength, 4);
    FromToBE(h.parityLength, 4);
  }

  lemma HighFieldsRead(h: Header)
    ensures var s := HeaderBytes(h);
      && Field64(s, 24) == h.sendID && Field64(s, 32) == h.recvID
      && Field64(s, 40) == h.segmentNum && Field64(s, 48) == h.crc
  {
    var a, b := LowFields(h), HighFields(h);
    HighSlices(h);
    SliceRight(a, b, 0, 8);
    SliceRight(a, b, 8, 16);
    SliceRight(a, b, 16, 24);
    SliceRight(a, b, 24, 32);
    Pow256Values();
    FromToBE(h.sendID, 8);
    FromToBE(h.recvID, 8);
    FromToBE(h.segmentNum, 8);
    FromToBE(h.crc, 8);
  }

  lemma HeaderOfBytes(h: Header)
    ensures HeaderAt(HeaderBytes(h), 0) == h
  {
    LowFieldsRead(h);
    HighFieldsRead(h);
  }

  lemma LowBytesOfHeader(s: seq<byte>, at: nat)
    requires at + HEADER_LENGTH <= |s|
    ensures LowFields(HeaderAt(s, at)) == s[at..at + 24]
  {
    ToFromBE(s[at..at + 2]);
    ToFromBE(s[at + 4..at + 8]);
    ToFromBE(s[at + 8..at + 12]);
    ToFromBE(s[at + 12..at + 16]);
    ToFromBE(s[at + 16..at + 20]);
    ToFromBE(s[at + 20..at + 24]);
    var a := s[at..at + 2] + [s[at + 2]] + [s[at + 3]] + s[at + 4..at + 8];
    assert a == s[at..at + 8];
    assert a + s[at + 8..at + 12] == s[at..at + 12];
    assert s[at..at + 12] + s[at + 12..at + 16] == s[at..at + 16];
    assert s[at..at + 16] + s[at + 16..at + 20] == s[at..at + 20];
    assert s[at..at + 20] + s[at + 20..at + 24] == s[at..at + 24];
  }

  lemma HighBytesOfHeader(s: seq<byte>, at: nat)
    requires at + HEADER_LENGTH <= |s|
    ensures HighFields(HeaderAt(s, at)) == s[at + 24..at + 56]
  {
    ToFromBE(s[at + 24..at + 32]);
    ToFromBE(s[at + 32..at + 40]);
    ToFromBE(s[at + 40..at + 48]);
    ToFromBE(s[at + 48..at + 56]);
    assert s[at + 24..at + 32] + s[at + 32..at + 40] == s[at + 24..at + 40];
    assert s[at + 24..at + 40] + s[at + 40..at + 48] == s[at + 24..at + 48];
    assert s[at + 24..at + 48] + s[at + 48..at + 56] == s[at + 24..at + 56];
  }

  lemma BytesOfHeader(s: seq<byte>, at: nat)
    requires at + HEADER_LENGTH <= |s|
    ensures HeaderBytes(HeaderAt(s, at)) == s[at..at + HEADER_LENGTH]
  {
    LowBytesOfHeader(s, at);
    HighBytesOfHeader(s, at);
    assert s[at..at + 24] + s[at + 24..at + 56] == s[at..at + 56];
  }

  /** A header is read from its 56 bytes and nothing else. */
  lemma HeaderAtSlice(s: seq<byte>, at: nat, t: seq<byte>, to: nat)
    requires at + HEADER_LENGTH <= |s| && to + HEADER_LENGTH <= |t|
    requires s[at..at + HEADER_LENGTH] == t[to..to + HEADER_LENGTH]
    ensures HeaderAt(s, at) == HeaderAt(t, to)
  {
    BytesOfHeader(s, at);
    BytesOfHeader(t, to);
    HeaderOfBytes(HeaderAt(s, at));
    HeaderOfBytes(HeaderAt(t, to));
  }
}
