/** Judging received messages and frames (handle_errors.c), without the log text. */
module HandleErrors {
  import opened Bytes
  import opened ByteOrder
  import opened CobsBlocks
  import opened CobsPartial
  import opened Messages
  import MessageCodec

  /** validate_message: tests on the header alone; a trailer that differs is only logged. */
  predicate Validates(h: Header, len: nat) {
    && h.chanType <= 1
    && h.dataType <= 4
    && h.totalLength <= MAX_MESSAGE_SIZE
    && h.totalLength <= len
    && h.bodyLength <= h.totalLength
  }

  /** What hce_try_header reports about a frame that the COBS verifier refused. */
  datatype Diagnosis = NoHeader | Fragment | Smashed

  function Diagnose(cobs: seq<byte>): Diagnosis {
    var p := PartialDecode(cobs, HEADER_LENGTH);
    if !p.ok then NoHeader
    else if HeaderAt(p.stored, 0).totalLength > |cobs| then Fragment
    else Smashed
  }

  /** hce_try_header: decode what may be a header, and look at its total length. */
  method HceTryHeader(e: Endianness, cobs: seq<byte>) returns (d: Diagnosis)
    ensures d == Diagnose(cobs)
  {
    hide PartialDecode, Field32;
    var mh := new byte[HEADER_LENGTH];
    var got := CobsPartialDecode(cobs, mh, HEADER_LENGTH);
    if got != HEADER_LENGTH {
      return NoHeader;
    }
    assert mh[..] == PartialDecode(cobs, HEADER_LENGTH).stored;
    var header := MessageCodec.HeaderFromBytes(e, mh[..], 0);
    if header.value.totalLength > |cobs| {
      return Fragment;
    }
    return Smashed;
  }

  /** A chunk of a stream, which has no zeros, shows no header exactly if it has 56 bytes or
      fewer. */
  lemma NoHeaderIff(cobs: seq<byte>)
    requires ZeroFree(cobs)
    ensures Diagnose(cobs) == NoHeader <==> |cobs| <= 56
  {
    hide PartialDecode, HeaderAt;
    PartialDecodeMet(cobs, HEADER_LENGTH);
  }

  /** If the first 57 bytes of a frame arrived, the true header is seen whatever happened to the
      rest, and the diagnosis tells whether the buffer is shorter than the message. */
  lemma TrueHeaderSeen(m: Message, cobs: seq<byte>)
    requires Printable(m) && StartsLikeFrame(cobs, MessageBytes(m), HEADER_LENGTH)
    ensures var p := PartialDecode(cobs, HEADER_LENGTH);
      p.ok && HeaderAt(p.stored, 0) == m.head
    ensures Diagnose(cobs) == if m.head.totalLength > |cobs| then Fragment else Smashed
  {
    hide HeaderAt, HeaderBytes, BodyBytes, PartialDecode, StartsLikeFrame;
    RecoverPrefix(cobs, MessageBytes(m), HEADER_LENGTH);
    assert MessageBytes(m)[..HEADER_LENGTH] == HeaderBytes(m.head);
    HeaderOfBytes(m.head);
  }

  /** A frame cut off after its header but before the length it announces is called a fragment. */
  lemma TruncationDiagnosed(m: Message, n: nat)
    requires Printable(m) && HEADER_LENGTH < n <= |Encode(MessageBytes(m))|
    requires n < m.head.totalLength
    ensures Diagnose(Encode(MessageBytes(m))[..n]) == Fragment
  {
    hide Encode, MessageBytes, Diagnose;
    var frame := Encode(MessageBytes(m));
    assert frame[..n][..HEADER_LENGTH + 1] == frame[..HEADER_LENGTH + 1];
    TrueHeaderSeen(m, frame[..n]);
  }
}
