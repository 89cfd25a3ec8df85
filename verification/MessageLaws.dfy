/** Printing, parsing and verifying messages: how the three relate. */
module MessageLaws {
  import opened Bytes
  import opened Parity
  import opened Messages

  // ----- the verifier

  /** verify_msg's tests on header, trailer and lengths. The trailer must repeat the header in
      every field but the first, which is not compared. */
  predicate HeadersAgree(m: Message) {
    && m.trail == m.head.(mbz := m.trail.mbz)
    && m.head.totalLength == TotalLength(m.head.contentLength)
    && m.head.totalLength == (HEADER_LENGTH + m.head.bodyLength + HEADER_LENGTH) % 0x1_0000_0000
    && m.head.parityLength == ParityLength(m.head.contentLength)
  }

  predicate Verified(m: Message)
    requires Shaped(m)
  {
    && HeadersAgree(m)
    && VParityOf(m.content, m.vparity)
    && HParityAccepts(m.content, m.hparity)
    && m.head.crc == 0
  }

  lemma FormedIsShaped(m: Message)
    requires Formed(m)
    ensures Shaped(m) && Printable(m) && |m.hparity| == HParityLength(m.head.contentLength)
  {
  }

  /** What form_msg makes is what verify_msg accepts. */
  lemma FormedVerified(m: Message)
    requires Formed(m)
    ensures Shaped(m) && Verified(m)
  {
    assert m.head.(mbz := m.head.mbz) == m.head;
  }

  /** `n` is what form_msg would make of the content of `m` and the header fields it is given. */
  ghost predicate FormedFrom(n: Message, m: Message) {
    && Formed(n) && n.content == m.content
    && n.head == FormedHeader(m.head.sendID, m.head.recvID, m.head.chanType, m.head.dataType,
                              m.head.segmentNum, m.head.msgID, |m.content|)
  }

  /** Two messages of one content differ at most in the `mbz` fields, which verify_msg does not
      look at, and in the bits of the horizontal parity that belong to no word. */
  ghost predicate SameChecked(m: Message, n: Message)
    requires m.content == n.content
  {
    && m.head == n.head.(mbz := m.head.mbz)
    && m.trail == n.trail.(mbz := m.trail.mbz)
    && m.vparity == n.vparity
    && |m.hparity| == |n.hparity| == HParityLength(|m.content|)
    && (WordsFit(|m.content|);
        forall i :: 0 <= i < HParityWords(|m.content|) ==> HBit(m.hparity, i) == HBit(n.hparity, i))
  }

  lemma SameWordBits(buf: seq<byte>, p: seq<byte>, q: seq<byte>)
    requires |p| == |q| == HParityLength(|buf|) && HParityOf(buf, q)
    ensures HParityAccepts(buf, p)
      <==> (WordsFit(|buf|);
            forall i :: 0 <= i < HParityWords(|buf|) ==> HBit(p, i) == HBit(q, i))
  {
    hide HBit, WordWeight, HParityWords, HParityLength;
    WordsFit(|buf|);
    forall i | 0 <= i < HParityWords(|buf|)
      ensures HBitOk(buf, p, i) <==> HBit(p, i) == HBit(q, i)
    {
      assert HBitOk(buf, q, i);
    }
  }

  lemma HeadersAgreeIff(m: Message, n: Message)
    requires Shaped(m) && FormedFrom(n, m)
    ensures HeadersAgree(m) && m.head.crc == 0
      <==> m.head == n.head.(mbz := m.head.mbz) && m.trail == n.trail.(mbz := m.trail.mbz)
  {
    hide VParityOf, HParityOf;
  }

  /** The verifier accepts exactly the messages that form_msg would make of their content and
      header fields, up to what it does not look at. */
  lemma VerifiedIsFormed(m: Message, n: Message)
    requires Shaped(m) && FormedFrom(n, m)
    ensures Verified(m) <==> SameChecked(m, n)
  {
    hide HBit, HParityAccepts, VParityOf, HeadersAgree, HParityWords, HParityLength;
    HeadersAgreeIff(m, n);
    FormedIsShaped(n);
    if HeadersAgree(m) {
      ShapedParity(m);
    }
    if VParityOf(m.content, m.vparity) {
      VParityUnique(m.content, m.vparity, n.vparity);
    }
    if |m.hparity| == HParityLength(|m.content|) {
      SameWordBits(m.content, m.hparity, n.hparity);
    }
  }

  /** In a shaped message whose header is in order the horizontal parity has its size. */
  lemma ShapedParity(m: Message)
    requires Shaped(m) && HeadersAgree(m)
    ensures |m.hparity| == HParityLength(|m.content|)
  {
  }

  /** Exact detection power: content replaced by another of the same length slips through
      exactly when the change is even in every 32-bit word and in every sampled column. */
  lemma ContentChangeAcceptedIff(m: Message, y: seq<byte>)
    requires Formed(m) && |y| == |m.content|
    ensures Shaped(m.(content := y))
    ensures Verified(m.(content := y))
      <==> EvenWords(XorBytes(m.content, y)) && EvenColumns(XorBytes(m.content, y))
  {
    FormedVerified(m);
    VParityDetects(m.content, y, m.vparity);
    HParityDetects(m.content, y, m.hparity);
  }

  // ----- print, then parse

  lemma Middle(a: seq<byte>, b: seq<byte>, c: seq<byte>)
    ensures (a + b + c)[|a|..|a| + |b|] == b
  {
  }

  lemma HeaderInMiddle(a: seq<byte>, h: Header, c: seq<byte>)
    ensures HeaderAt(a + HeaderBytes(h) + c, |a|) == h
  {
    var hb := HeaderBytes(h);
    Middle(a, hb, c);
    assert hb[0..HEADER_LENGTH] == hb;
    HeaderAtSlice(a + hb + c, |a|, hb, 0);
    HeaderOfBytes(h);
  }

  lemma FieldOfSlice(s: seq<byte>, at: nat, w: uint64)
    requires at + 8 <= |s| && s[at..at + 8] == ToBE(w, 8)
    ensures Field64(s, at) == w
  {
    Pow256Values();
    FromToBE(w, 8);
  }

  lemma WordsAtLast(s: seq<byte>, at: nat, n: nat)
    requires at + 8 * n + 8 <= |s|
    ensures WordsAt(s, at, n + 1) == WordsAt(s, at, n) + [Field64(s, at + 8 * n)]
  {
  }

  lemma SplitSlice(s: seq<byte>, at: nat, a: seq<byte>, b: seq<byte>)
    requires at + |a| + |b| <= |s| && s[at..at + |a| + |b|] == a + b
    ensures s[at..at + |a|] == a && s[at + |a|..at + |a| + |b|] == b
  {
    var t := s[at..at + |a| + |b|];
    assert s[at..at + |a|] == t[..|a|];
    assert s[at + |a|..at + |a| + |b|] == t[|a|..];
  }

  lemma WordsBytesLast(ws: seq<uint64>)
    requires ws != []
    ensures WordsBytes(ws) == WordsBytes(ws[..|ws| - 1]) + ToBE(ws[|ws| - 1], 8)
  {
    hide ToBE;
  }

  lemma {:induction false} WordsOfSlice(s: seq<byte>, at: nat, ws: seq<uint64>)
    requires at + 8 * |ws| <= |s| && s[at..at + 8 * |ws|] == WordsBytes(ws)
    ensures WordsAt(s, at, |ws|) == ws
  {
    hide WordsBytes, Field64, ToBE, WordsAt;
    if ws == [] {
      assert |WordsAt(s, at, 0)| == 0;
    } else {
      var n := |ws| - 1;
      var front, last := ws[..n], ws[n];
      WordsBytesLast(ws);
      SplitSlice(s, at, WordsBytes(front), ToBE(last, 8));
      WordsOfSlice(s, at, front);
      FieldOfSlice(s, at + 8 * n, last);
      WordsAtLast(s, at, n);
      assert front + [last] == ws;
    }
  }

  lemma BytesOfField(s: seq<byte>, at: nat)
    requires at + 8 <= |s|
    ensures ToBE(Field64(s, at), 8) == s[at..at + 8]
  {
    hide ToBE;
    ToFromBE(s[at..at + 8]);
  }

  lemma {:induction false} BytesOfWords(s: seq<byte>, at: nat, n: nat)
    requires at + 8 * n <= |s|
    ensures WordsBytes(WordsAt(s, at, n)) == s[at..at + 8 * n]
  {
    hide ToBE, Field64;
    if n > 0 {
      var ws, mid := WordsAt(s, at, n), at + 8 * (n - 1);
      BytesOfWords(s, at, n - 1);
      WordsAtLast(s, at, n - 1);
      BytesOfField(s, mid);
      assert ws[..n - 1] == WordsAt(s, at, n - 1);
      assert s[at..mid] + s[mid..mid + 8] == s[at..mid + 8];
    }
  }

  lemma Regroup(h: seq<byte>, c: seq<byte>, w: seq<byte>, p: seq<byte>, e: seq<byte>, r: seq<byte>)
    ensures var s := h + (c + w + p) + e + r;
      && s == [] + h + (c + w + p + e + r)
      && s == h + c + (w + p + e + r)
      && s == (h + c) + w + (p + e + r)
      && s == (h + c + w) + p + (e + r)
      && s == (h + c + w + p) + e + r
  {
  }

  lemma {:induction false} WordOfBytes(ws: seq<uint64>, i: nat)
    requires i < |ws|
    ensures WordsBytes(ws)[8 * i..8 * i + 8] == ToBE(ws[i], 8)
    decreases |ws|
  {
    hide ToBE, WordsBytes;
    var n := |ws| - 1;
    var front, last := WordsBytes(ws[..n]), ToBE(ws[n], 8);
    WordsBytesLast(ws);
    if i < n {
      WordOfBytes(ws[..n], i);
      SliceLeft(front, last, 8 * i, 8 * i + 8);
    } else {
      SliceRight(front, last, 0, 8);
    }
  }

  /** Where each piece of a printed message lies. */
  lemma MessageLayout(m: Message)
    requires Printable(m)
    ensures var s := MessageBytes(m);
      var v := 56 + |m.content|;
      var t := v + 32 + HParityLength(|m.content|);
      && |s| == t + 56
      && s[0..56] == HeaderBytes(m.head)
      && s[56..v] == m.content
      && (forall i :: 0 <= i < 4 ==> s[v..v + 32][8 * i..8 * i + 8] == ToBE(m.vparity[i], 8))
      && s[v + 32..t] == m.hparity[..t - v - 32]
      && s[t..t + 56] == HeaderBytes(m.trail)
  {
    hide HeaderBytes, WordsBytes, ToBE, HParityLength;
    var h, c, w, e := HeaderBytes(m.head), m.content, WordsBytes(m.vparity), HeaderBytes(m.trail);
    var p := m.hparity[..HParityLength(|m.content|)];
    Regroup(h, c, w, p, e, []);
    assert MessageBytes(m) == h + (c + w + p) + e + [];
    Middle([], h, c + w + p + e + []);
    Middle(h, c, w + p + e + []);
    Middle(h + c, w, p + e + []);
    Middle(h + c + w, p, e + []);
    Middle(h + c + w + p, e, []);
    forall i | 0 <= i < 4
      ensures w[8 * i..8 * i + 8] == ToBE(m.vparity[i], 8)
    {
      WordOfBytes(m.vparity, i);
    }
  }

  /** The lengths in the header of a formed message are those of its pieces. */
  lemma FormedLengths(m: Message)
    requires Formed(m)
    ensures Printable(m)
    ensures m.head.totalLength == |MessageBytes(m)| == 56 + m.head.bodyLength + 56
    ensures m.head.bodyLength == |BodyBytes(m)| == m.head.contentLength + m.head.parityLength
    ensures m.head.contentLength == |m.content|
    ensures m.head.parityLength == 8 * |m.vparity| + |m.hparity|
    ensures m.head.mbz == 0 == m.head.crc
  {
    hide HeaderBytes, WordsBytes;
    FormedIsShaped(m);
  }

  /** Which inputs parse, and what is read from where, in terms of the bytes alone. */
  lemma ParsedFrom(s: seq<byte>)
    ensures Parseable(s)
      <==> && 56 <= |s| && FromBE(s[16..20]) < 65536
           && 32 <= FromBE(s[20..24]) < 0x8000_0020
           && 112 + FromBE(s[16..20]) + FromBE(s[20..24]) <= |s|
    ensures Parseable(s) ==>
      var m, v := MessageIn(s), 56 + FromBE(s[16..20]);
      var t := v + FromBE(s[20..24]);
      && HeaderBytes(m.head) == s[..56] && HeaderBytes(m.trail) == s[t..t + 56]
      && m.content == s[56..v] && m.hparity == s[v + 32..t]
      && WordsBytes(m.vparity) == s[v..v + 32]
  {
    hide FromBE, HeaderBytes, WordsAt, WordsBytes;
    if Parseable(s) {
      var v := 56 + FromBE(s[16..20]);
      var t := v + FromBE(s[20..24]);
      BytesOfHeader(s, 0);
      BytesOfHeader(s, t);
      BytesOfWords(s, v, 4);
    }
  }

  /** `s` holds the pieces of `m` where its header says they are. */
  ghost predicate Holds(s: seq<byte>, m: Message) {
    var v := HEADER_LENGTH + m.head.contentLength;
    var t := v + m.head.parityLength;
    && VPARITY_LENGTH <= m.head.parityLength
    && t + HEADER_LENGTH <= |s|
    && HeaderAt(s, 0) == m.head
    && s[HEADER_LENGTH..v] == m.content
    && WordsAt(s, v, 4) == m.vparity
    && s[v + VPARITY_LENGTH..t] == m.hparity
    && HeaderAt(s, t) == m.trail
  }

  lemma PrintedHolds(m: Message, rest: seq<byte>)
    requires Shaped(m) && |m.hparity| == HParityLength(m.head.contentLength)
    ensures Holds(MessageBytes(m) + rest, m)
  {
    hide HeaderAt, HeaderBytes, WordsAt, WordsBytes;
    var h, c, w, p, e :=
      HeaderBytes(m.head), m.content, WordsBytes(m.vparity), m.hparity, HeaderBytes(m.trail);
    assert p[..HParityLength(m.head.contentLength)] == p;
    Regroup(h, c, w, p, e, rest);
    HeaderInMiddle([], m.head, c + w + p + e + rest);
    Middle(h, c, w + p + e + rest);
    Middle(h + c, w, p + e + rest);
    WordsOfSlice(h + (c + w + p) + e + rest, |h + c|, m.vparity);
    Middle(h + c + w, p, e + rest);
    HeaderInMiddle(h + c + w + p, m.trail, rest);
  }

  lemma ParseHeld(s: seq<byte>, m: Message)
    requires Holds(s, m)
    requires m.head.contentLength < MAX_MESSAGE_SIZE && m.head.parityLength < 0x8000_0000
    ensures Parseable(s) && MessageIn(s) == m
  {
    hide HeaderAt, WordsAt;
  }

  /** A formed message comes back from its bytes, also with more bytes behind them, exactly when
      its content is below the message limit. */
  lemma ParsePrinted(m: Message, rest: seq<byte>)
    requires Formed(m)
    ensures Printable(m)
    ensures var s := MessageBytes(m) + rest;
      Parseable(s) && MessageIn(s) == m <==> |m.content| < MAX_MESSAGE_SIZE
  {
    FormedIsShaped(m);
    hide HeaderAt, HeaderBytes, WordsAt, WordsBytes, BodyBytes, MessageIn, VParityOf, HParityOf;
    PrintedHolds(m, rest);
    if |m.content| < MAX_MESSAGE_SIZE {
      ParseHeld(MessageBytes(m) + rest, m);
    }
  }

  // ----- parse, then print

  /** Printing a parsed message gives back the bytes it was parsed from exactly when the
      announced parity length is the one its content calls for. */
  lemma PrintParsedIff(s: seq<byte>)
    requires Parseable(s) && Printable(MessageIn(s))
    ensures var h := HeaderAt(s, 0);
      MessageBytes(MessageIn(s)) == s[..2 * HEADER_LENGTH + h.contentLength + h.parityLength]
      <==> h.parityLength == ParityLength(h.contentLength)
  {
    hide HeaderAt, HeaderBytes, WordsAt, WordsBytes;
    var h := HeaderAt(s, 0);
    var v := HEADER_LENGTH + h.contentLength;
    var t := v + h.parityLength;
    if h.parityLength == ParityLength(h.contentLength) {
      BytesOfHeader(s, 0);
      BytesOfHeader(s, t);
      BytesOfWords(s, v, 4);
      PrintPieces(MessageIn(s), s, v, t);
    }
  }

  lemma PrintPieces(m: Message, s: seq<byte>, v: nat, t: nat)
    requires Printable(m) && |m.hparity| == HParityLength(m.head.contentLength)
    requires HEADER_LENGTH <= v <= v + 32 <= t <= t + HEADER_LENGTH <= |s|
    requires HeaderBytes(m.head) == s[0..HEADER_LENGTH] && m.content == s[HEADER_LENGTH..v]
    requires WordsBytes(m.vparity) == s[v..v + 32] && m.hparity == s[v + 32..t]
    requires HeaderBytes(m.trail) == s[t..t + HEADER_LENGTH]
    ensures MessageBytes(m) == s[..t + HEADER_LENGTH]
  {
    hide HeaderBytes, WordsBytes;
    assert m.hparity[..|m.hparity|] == m.hparity;
    Rejoin(s, HEADER_LENGTH, v, v + 32, t, t + HEADER_LENGTH);
  }

  lemma Rejoin(s: seq<byte>, a: nat, b: nat, c: nat, d: nat, e: nat)
    requires a <= b <= c <= d <= e <= |s|
    ensures s[0..a] + (s[a..b] + s[b..c] + s[c..d]) + s[d..e] == s[..e]
  {
    assert s[a..b] + s[b..c] == s[a..c];
    assert s[a..c] + s[c..d] == s[a..d];
    assert s[0..a] + s[a..d] == s[0..d];
    assert s[0..d] + s[d..e] == s[0..e] == s[..e];
  }

  /** A message that parses and verifies prints as the bytes it came from. */
  lemma PrintVerified(s: seq<byte>)
    requires Parseable(s) && Verified(MessageIn(s))
    ensures Printable(MessageIn(s))
    ensures var m := MessageIn(s);
      m.head.totalLength <= |s| && MessageBytes(m) == s[..m.head.totalLength]
  {
    hide HeaderAt, HeaderBytes, WordsAt, WordsBytes, VParityOf, HParityAccepts;
    PrintParsedIff(s);
  }

  // ----- the last byte

  /** `m` and `n` are the same but for the trailer. */
  predicate SameButTrailer(m: Message, n: Message) {
    n == m.(trail := n.trail)
  }

  function WithLastByte(s: seq<byte>, b: byte): (t: seq<byte>)
    requires |s| > 0
    ensures |t| == |s| && t[..|t| - 1] == s[..|s| - 1]
  {
    s[..|s| - 1] + [b]
  }

  /** Changing the last byte of an input changes neither whether it parses nor anything but the
      trailer of what it parses to. */
  lemma LastByteIrrelevant(s: seq<byte>, t: seq<byte>)
    requires |s| == |t| > 0 && s[..|s| - 1] == t[..|t| - 1]
    ensures Parseable(s) <==> Parseable(t)
    ensures Parseable(s) ==>
      && HeaderAt(s, 0) == HeaderAt(t, 0)
      && SameButTrailer(MessageIn(s), MessageIn(t))
  {
    var n := |s| - 1;
    if HEADER_LENGTH <= n {
      assert s[0..HEADER_LENGTH] == s[..n][0..HEADER_LENGTH] == t[..n][0..HEADER_LENGTH] == t[0..HEADER_LENGTH];
      HeaderAtSlice(s, 0, t, 0);
      if Parseable(s) {
        SameBody(s, t, n);
      }
    }
  }

  lemma SameBody(s: seq<byte>, t: seq<byte>, n: nat)
    requires Parseable(s) && Parseable(t) && HeaderAt(s, 0) == HeaderAt(t, 0)
    requires n <= |s| && n <= |t| && s[..n] == t[..n]
    requires HEADER_LENGTH + HeaderAt(s, 0).contentLength + HeaderAt(s, 0).parityLength <= n
    ensures SameButTrailer(MessageIn(s), MessageIn(t))
  {
    hide HeaderAt, WordsAt;
    var h := HeaderAt(s, 0);
    var v := HEADER_LENGTH + h.contentLength;
    var e := v + h.parityLength;
    SamePart(s, t, n, HEADER_LENGTH, v);
    SamePart(s, t, n, v, v + 32);
    SameWords(s, t, v, 4);
    SamePart(s, t, n, v + 32, e);
  }

  lemma SameSubrange(s: seq<byte>, t: seq<byte>, at: nat, end: nat, i: nat, j: nat)
    requires at <= i <= j <= end <= |s| && end <= |t| && s[at..end] == t[at..end]
    ensures s[i..j] == t[i..j]
  {
    forall k | i <= k < j
      ensures s[k] == t[k]
    {
      assert s[k] == s[at..end][k - at] && t[k] == t[at..end][k - at];
    }
  }

  lemma {:induction false} SameWords(s: seq<byte>, t: seq<byte>, at: nat, n: nat)
    requires at + 8 * n <= |s| && at + 8 * n <= |t|
    requires s[at..at + 8 * n] == t[at..at + 8 * n]
    ensures WordsAt(s, at, n) == WordsAt(t, at, n)
  {
    hide FromBE;
    if n > 0 {
      var mid, end := at + 8 * (n - 1), at + 8 * n;
      SameSubrange(s, t, at, end, at, mid);
      SameSubrange(s, t, at, end, mid, end);
      SameWords(s, t, at, n - 1);
    }
  }

  lemma SamePart(s: seq<byte>, t: seq<byte>, n: nat, i: nat, j: nat)
    requires n <= |s| && n <= |t| && s[..n] == t[..n]
    requires i <= j <= n
    ensures s[i..j] == t[i..j]
  {
    assert s[i..j] == s[..n][i..j];
    assert t[i..j] == t[..n][i..j];
  }

  lemma ReplaceLastByte(m: Message, b: byte)
    requires Formed(m) && Printable(m)
    ensures var s := MessageBytes(m);
      && s[|s| - 1] == 0
      && WithLastByte(s, b)
           == HeaderBytes(m.head) + BodyBytes(m) + HeaderBytes(m.trail.(crc := b)) + []
  {
    LastByteOfHeader(m.trail);
    TrailerWithLastByte(m.trail, b);
    hide HeaderBytes, BodyBytes;
    LastOfConcat(HeaderBytes(m.head) + BodyBytes(m), HeaderBytes(m.trail), b);
  }

  lemma LastOfConcat(front: seq<byte>, e: seq<byte>, b: byte)
    requires |e| == HEADER_LENGTH
    ensures (front + e)[|front + e| - 1] == e[55]
    ensures WithLastByte(front + e, b) == front + e[55 := b] + []
  {
  }

  /** A printed formed message whose last byte is replaced parses to the same message with that
      byte as the trailer's crc. */
  lemma LastByteOfFormed(m: Message, b: byte)
    requires Formed(m) && |m.content| < MAX_MESSAGE_SIZE
    ensures Printable(m)
    ensures var t := WithLastByte(MessageBytes(m), b);
      Parseable(t) && MessageIn(t) == m.(trail := m.trail.(crc := b))
  {
    hide HeaderAt, HeaderBytes, WordsAt, WordsBytes;
    var s := MessageBytes(m);
    var t := WithLastByte(s, b);
    ParsePrinted(m, []);
    assert s + [] == s;
    LastByteIrrelevant(s, t);
    ReplaceLastByte(m, b);
    TrailerIn(t, HeaderAt(t, 0), HeaderBytes(m.head) + BodyBytes(m), m.trail.(crc := b));
  }

  /** Such a message verifies only if the byte is the zero it should be. */
  lemma LastByteVerifiedIff(m: Message, b: byte)
    requires Formed(m)
    ensures var n := m.(trail := m.trail.(crc := b));
      Shaped(n) && (Verified(n) <==> b == 0)
  {
    FormedVerified(m);
    assert m.trail.(crc := 0) == m.trail;
  }

  lemma TrailerIn(t: seq<byte>, h: Header, front: seq<byte>, k: Header)
    requires Parseable(t) && h == HeaderAt(t, 0)
    requires |front| == HEADER_LENGTH + h.contentLength + h.parityLength
    requires t == front + HeaderBytes(k) + []
    ensures MessageIn(t).trail == k
  {
    hide HeaderAt, HeaderBytes;
    HeaderInMiddle(front, k, []);
  }

  lemma LastByteOfHeader(h: Header)
    requires h.crc == 0
    ensures HeaderBytes(h)[55] == 0
  {
    ZeroBytes(8);
    HighSlices(h);
    assert HeaderBytes(h)[55] == HighFields(h)[31] == HighFields(h)[24..32][7];
  }

  lemma {:induction false} ZeroBytes(n: nat)
    ensures forall i :: 0 <= i < n ==> ToBE(0, n)[i] == 0
  {
    if n > 0 {
      ZeroBytes(n - 1);
    }
  }

  lemma {:induction false} SmallToBE(b: byte, n: nat)
    ensures ToBE(b, n + 1) == ToBE(0, n) + [b]
  {
    assert b / 256 == 0 && b % 256 == b;
  }

  lemma LowFieldsIgnoreCrc(h: Header, crc: uint64)
    ensures LowFields(h.(crc := crc)) == LowFields(h)
  {
  }

  lemma TrailerWithLastByte(h: Header, b: byte)
    requires h.crc == 0
    ensures HeaderBytes(h)[55 := b] == HeaderBytes(h.(crc := b))
  {
    hide ToBE, LowFields;
    SmallToBE(b, 7);
    SmallToBE(0, 7);
    LowFieldsIgnoreCrc(h, b);
    var ids := ToBE(h.sendID, 8) + ToBE(h.recvID, 8) + ToBE(h.segmentNum, 8);
    var front := LowFields(h) + (ids + ToBE(0, 7));
    assert HeaderBytes(h) == front + [0];
    assert HeaderBytes(h.(crc := b)) == front + [b];
  }
}
