/** msg_to_bytes, msg_from_bytes and verify_msg as they work on buffers (message.c). */
module MessageCodec {
  import opened Bytes
  import opened ByteOrder
  import opened Parity
  import opened Messages
  import opened MessageLaws

  // ----- writing

  /** memcpy into a buffer. */
  method StoreBytes(dst: array<byte>, at: nat, part: seq<byte>)
    requires at + |part| <= dst.Length
    modifies dst
    ensures dst[..] == Splice(old(dst[..]), at, part)
  {
    var i := 0;
    while i < |part|
      invariant 0 <= i <= |part|
      invariant forall k :: 0 <= k < i ==> dst[at + k] == part[k]
      invariant forall k :: 0 <= k < dst.Length && !(at <= k < at + i) ==> dst[k] == old(dst[k])
    {
      dst[at + i] := part[i];
      i := i + 1;
    }
    assert dst[at..at + |part|] == part;
    assert dst[..at] == old(dst[..at]);
    assert dst[at + |part|..] == old(dst[at + |part|..]);
  }

  /** A field is converted to network order and then copied as the host keeps it in memory. */
  method StoreField(e: Endianness, dst: array<byte>, at: nat, v: nat, n: nat)
    requires v < Pow256(n) && at + n <= dst.Length
    modifies dst
    ensures dst[..] == Splice(old(dst[..]), at, ToBE(v, n))
  {
    var net := NetworkOrder(e, v, n);
    SwappedInMemoryIsBigEndian(e, v, n);
    StoreBytes(dst, at, InMemory(e, net, n));
  }

  /** A field following what was stored from `base` on. */
  method AppendField(e: Endianness, dst: array<byte>, base: nat, v: nat, n: nat,
                     ghost was: seq<byte>, ghost stored: seq<byte>, at: nat)
    requires v < Pow256(n) && at == base + |stored| && at + n <= dst.Length == |was|
    requires dst[..] == Splice(was, base, stored)
    modifies dst
    ensures dst[..] == Splice(was, base, stored + ToBE(v, n))
  {
    SpliceAdjacent(was, base, stored, ToBE(v, n));
    StoreField(e, dst, at, v, n);
  }

  /** The first half of msg_header_to_bytes: kinds and lengths. */
  method StoreLowFields(e: Endianness, h: Header, dst: array<byte>, at: nat)
    requires at + 24 <= dst.Length
    modifies dst
    ensures dst[..] == Splice(old(dst[..]), at, LowFields(h))
  {
    hide ToBE, Splice;
    ghost var was := dst[..];
    Pow256Values();
    NothingSpliced(was, at);
    StoreTypes(e, h, dst, at);
    ghost var s := TypeFields(h);
    AppendField(e, dst, at, h.msgID, 4, was, s, at + 4);
    AppendField(e, dst, at, h.totalLength, 4, was, s + ToBE(h.msgID, 4), at + 8);
    s := s + ToBE(h.msgID, 4) + ToBE(h.totalLength, 4);
    AppendField(e, dst, at, h.bodyLength, 4, was, s, at + 12);
    AppendField(e, dst, at, h.contentLength, 4, was, s + ToBE(h.bodyLength, 4), at + 16);
    s := s + ToBE(h.bodyLength, 4) + ToBE(h.contentLength, 4);
    AppendField(e, dst, at, h.parityLength, 4, was, s, at + 20);
  }

  ghost function TypeFields(h: Header): (s: seq<byte>)
    ensures |s| == 4
  {
    ToBE(h.mbz, 2) + [h.chanType] + [h.dataType]
  }

  method StoreTypes(e: Endianness, h: Header, dst: array<byte>, at: nat)
    requires at + 4 <= dst.Length
    modifies dst
    ensures dst[..] == Splice(old(dst[..]), at, TypeFields(h))
  {
    hide ToBE;
    ghost var was := dst[..];
    Pow256Values();
    StoreField(e, dst, at, h.mbz, 2);
    SpliceAdjacent(was, at, ToBE(h.mbz, 2), [h.chanType]);
    StoreBytes(dst, at + 2, [h.chanType]);
    SpliceAdjacent(was, at, ToBE(h.mbz, 2) + [h.chanType], [h.dataType]);
    StoreBytes(dst, at + 3, [h.dataType]);
  }

  lemma NothingSpliced(s: seq<byte>, at: nat)
    requires at <= |s|
    ensures Splice(s, at, []) == s
  {
  }

  /** The second half: identifiers. */
  method StoreHighFields(e: Endianness, h: Header, dst: array<byte>, at: nat)
    requires at + 32 <= dst.Length
    modifies dst
    ensures dst[..] == Splice(old(dst[..]), at, HighFields(h))
  {
    hide ToBE, Splice;
    ghost var was := dst[..];
    Pow256Values();
    StoreField(e, dst, at, h.sendID, 8);
    ghost var s := ToBE(h.sendID, 8);
    AppendField(e, dst, at, h.recvID, 8, was, s, at + 8);
    AppendField(e, dst, at, h.segmentNum, 8, was, s + ToBE(h.recvID, 8), at + 16);
    AppendField(e, dst, at, h.crc, 8, was, s + ToBE(h.recvID, 8) + ToBE(h.segmentNum, 8), at + 24);
  }

  /** msg_header_to_bytes, and msg_trailer_to_bytes which calls it. */
  method HeaderToBytes(e: Endianness, h: Header, dst: array<byte>, at: nat)
    requires at + HEADER_LENGTH <= dst.Length
    modifies dst
    ensures dst[..] == Splice(old(dst[..]), at, HeaderBytes(h))
  {
    hide LowFields, HighFields;
    ghost var was := dst[..];
    StoreLowFields(e, h, dst, at);
    SpliceAdjacent(was, at, LowFields(h), HighFields(h));
    StoreHighFields(e, h, dst, at + 24);
  }

  /** The loop over the vertical parity words. */
  method StoreWords(e: Endianness, ws: seq<uint64>, dst: array<byte>, at: nat)
    requires at + 8 * |ws| <= dst.Length
    modifies dst
    ensures dst[..] == Splice(old(dst[..]), at, WordsBytes(ws))
  {
    hide ToBE, Splice;
    ghost var was := dst[..];
    Pow256Values();
    NothingSpliced(was, at);
    var i := 0;
    while i < |ws|
      invariant 0 <= i <= |ws|
      invariant dst[..] == Splice(was, at, WordsBytes(ws[..i]))
    {
      AppendField(e, dst, at, ws[i], 8, was, WordsBytes(ws[..i]), at + 8 * i);
      assert ws[..i + 1][..i] == ws[..i];
      i := i + 1;
    }
    assert ws[..i] == ws;
  }

  /** msg_to_bytes: `currlen` is how much of the buffer has been filled. */
  method MsgToBytes(e: Endianness, m: Message) returns (bytes: array<byte>)
    requires Printable(m)
    ensures fresh(bytes)
    ensures bytes[..] == MessageBytes(m)
  {
    hide HeaderBytes, WordsBytes, Splice;
    var clen := m.head.contentLength;
    var len := TotalLength(clen);
    bytes := new byte[len](_ => 0);
    ghost var was := bytes[..];
    var currlen: nat := HEADER_LENGTH;
    ghost var stored := HeaderBytes(m.head);
    HeaderToBytes(e, m.head, bytes, 0);

    SpliceAdjacent(was, 0, stored, m.content);
    StoreBytes(bytes, currlen, m.content);
    currlen, stored := currlen + clen, stored + m.content;

    SpliceAdjacent(was, 0, stored, WordsBytes(m.vparity));
    StoreWords(e, m.vparity, bytes, currlen);
    currlen, stored := currlen + VPARITY_LENGTH, stored + WordsBytes(m.vparity);

    var hlen := HParityLength(clen);
    SpliceAdjacent(was, 0, stored, m.hparity[..hlen]);
    StoreBytes(bytes, currlen, m.hparity[..hlen]);
    currlen, stored := currlen + hlen, stored + m.hparity[..hlen];

    SpliceAdjacent(was, 0, stored, HeaderBytes(m.trail));
    HeaderToBytes(e, m.trail, bytes, currlen);
    stored := stored + HeaderBytes(m.trail);
    AllSpliced(was, stored);
    Reassociate(HeaderBytes(m.head), m.content, WordsBytes(m.vparity), m.hparity[..hlen],
                HeaderBytes(m.trail));
  }

  lemma AllSpliced(s: seq<byte>, part: seq<byte>)
    requires |part| == |s|
    ensures Splice(s, 0, part) == part
  {
  }

  lemma Reassociate(h: seq<byte>, c: seq<byte>, w: seq<byte>, p: seq<byte>, t: seq<byte>)
    ensures h + c + w + p + t == h + (c + w + p) + t
  {
  }

  // ----- reading

  /** safe_memcpy: copies only if the source stays inside the buffer. */
  method SafeCopy(src: seq<byte>, at: nat, len: nat) returns (r: Option<seq<byte>>)
    ensures r == if at + len <= |src| then Some(src[at..at + len]) else None
  {
    if at + len > |src| {
      return None;
    }
    r := Some(src[at..at + len]);
  }

  method LoadField(e: Endianness, raw: seq<byte>, at: nat, n: nat) returns (v: nat)
    requires at + n <= |raw|
    ensures v == FromBE(raw[at..at + n]) && v < Pow256(n)
  {
    var mem := raw[at..at + n];
    SwappedFromMemoryIsValue(e, mem);
    var host := FromMemory(e, mem);
    assert |mem| == n;
    v := NetworkOrder(e, host, n);
  }

  /** msg_ht_from_bytes: if the struct is inside the input, each field is converted. */
  method HeaderFromBytes(e: Endianness, src: seq<byte>, at: nat) returns (r: Option<Header>)
    ensures r == if at + HEADER_LENGTH <= |src| then Some(HeaderAt(src, at)) else None
  {
    hide FromBE;
    var raw := SafeCopy(src, at, HEADER_LENGTH);
    if raw.None? {
      return None;
    }
    Pow256Values();
    var sendID := LoadField(e, src, at + 24, 8);
    var recvID := LoadField(e, src, at + 32, 8);
    var segmentNum := LoadField(e, src, at + 40, 8);
    var crc := LoadField(e, src, at + 48, 8);
    var msgID := LoadField(e, src, at + 4, 4);
    var totalLength := LoadField(e, src, at + 8, 4);
    var bodyLength := LoadField(e, src, at + 12, 4);
    var contentLength := LoadField(e, src, at + 16, 4);
    var parityLength := LoadField(e, src, at + 20, 4);
    var mbz := LoadField(e, src, at, 2);
    r := Some(Header(mbz, src[at + 2], src[at + 3], msgID, totalLength, bodyLength, contentLength,
                     parityLength, sendID, recvID, segmentNum, crc));
  }

  method LoadWords(e: Endianness, src: seq<byte>, at: nat, n: nat) returns (ws: seq<uint64>)
    requires at + 8 * n <= |src|
    ensures ws == WordsAt(src, at, n)
  {
    hide FromBE;
    Pow256Values();
    ws := [];
    var i := 0;
    while i < n
      invariant 0 <= i <= n
      invariant ws == WordsAt(src, at, i)
    {
      WordsAtLast(src, at, i);
      var w := LoadField(e, src, at + 8 * i, 8);
      ws := ws + [w];
      i := i + 1;
    }
  }

  /** The conversion of a 64-bit difference to `int` in msg_body_from_bytes. */
  function AsInt32(n: int): int {
    var low := n % 0x1_0000_0000;
    if low < 0x8000_0000 then low else low - 0x1_0000_0000
  }

  datatype Body = Body(content: seq<byte>, vparity: seq<uint64>, hparity: seq<byte>, end: nat)

  /** When the body at `at` can be read. */
  predicate BodyFits(src: seq<byte>, at: nat, contentlen: nat, paritylen: nat) {
    && contentlen < MAX_MESSAGE_SIZE
    && VPARITY_LENGTH <= paritylen < VPARITY_LENGTH + 0x8000_0000
    && at + contentlen + paritylen <= |src|
  }

  /** msg_body_from_bytes: `current` advances past content and parities. A negative length for
      the horizontal parity makes its allocation fail. */
  method BodyFromBytes(e: Endianness, src: seq<byte>, at: nat, contentlen: uint32, paritylen: uint32)
    returns (r: Option<Body>)
    requires at <= |src|
    ensures r.Some? <==> BodyFits(src, at, contentlen, paritylen)
    ensures r.Some? ==>
      var v := at + contentlen;
      r.value == Body(src[at..v], WordsAt(src, v, 4),
                      src[v + VPARITY_LENGTH..at + contentlen + paritylen],
                      at + contentlen + paritylen)
  {
    hide WordsAt;
    if |src| - at <= 0 || contentlen >= MAX_MESSAGE_SIZE {
      return None;
    }
    var current: nat := at;
    var content := SafeCopy(src, current, contentlen);
    if content.None? {
      return None;
    }
    current := current + contentlen;
    var raw := SafeCopy(src, current, VPARITY_LENGTH);
    if raw.None? {
      return None;
    }
    var vparity := LoadWords(e, src, current, 4);
    current := current + VPARITY_LENGTH;
    var hparlen := AsInt32(paritylen - VPARITY_LENGTH);
    if hparlen < 0 {
      return None;
    }
    var hparity := SafeCopy(src, current, hparlen);
    if hparity.None? {
      return None;
    }
    current := current + hparlen;
    r := Some(Body(content.value, vparity, hparity.value, current));
  }

  /** msg_from_bytes: succeeds exactly on inputs that hold what their header announces. */
  method MsgFromBytes(e: Endianness, src: seq<byte>) returns (r: Option<Message>)
    ensures r == if Parseable(src) then Some(MessageIn(src)) else None
  {
    hide HeaderAt, WordsAt;
    var head := HeaderFromBytes(e, src, 0);
    if head.None? {
      return None;
    }
    var h := head.value;
    var body := BodyFromBytes(e, src, HEADER_LENGTH, h.contentLength, h.parityLength);
    if body.None? {
      return None;
    }
    var trail := HeaderFromBytes(e, src, body.value.end);
    if trail.None? {
      return None;
    }
    r := Some(Message(h, body.value.content, body.value.vparity, body.value.hparity, trail.value));
  }

  // ----- verifying

  /** verify_msg; the field by field comparison of header and trailer is `HeadersAgree`. */
  method VerifyMsg(m: Message) returns (ok: bool)
    requires Shaped(m)
    ensures ok == Verified(m)
  {
    hide VParityOf, HParityAccepts;
    if !HeadersAgree(m) {
      return false;
    }
    var v := CheckVParity(m.content, m.vparity);
    if !v {
      return false;
    }
    var h := CheckHParity(m.content, m.hparity);
    if !h {
      return false;
    }
    return m.head.crc == 0;
  }
}
