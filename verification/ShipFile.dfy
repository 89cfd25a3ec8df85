/** Sending (socket_msg_help.c, file_transfer.c) and what the reader makes of it. */
module ShipFile {
  import opened Arithmetic
  import opened Bytes
  import opened ByteOrder
  import opened CobsBlocks
  import opened CobsDecoding
  import opened CobsLengths
  import opened Messages
  import opened MessageLaws
  import opened Frames
  import Cobs
  import MessageCodec

  /** msg_to_cobs: serialise, encode into a buffer of twice the size, find the delimiter. */
  method MsgToCobs(e: Endianness, m: Message) returns (buf: array<byte>, len: nat)
    requires Printable(m)
    ensures fresh(buf) && len <= buf.Length
    ensures buf[..len] == Frame(m)
  {
    hide HeaderBytes, BodyBytes, Encode;
    var tmpbuf := MessageCodec.MsgToBytes(e, m);
    var x := tmpbuf[..];
    DoubleBufferSuffices(x);
    EncodeAccepted(x);
    buf := new byte[2 * tmpbuf.Length];
    Cobs.CobsEncode(x, buf);
    ghost var n := |Encode(x)|;
    assert buf[..n] == Encode(x);
    assert buf[..][n - 1] == 0;
    len := Cobs.EncodedLengthFromEncoded(buf[..]);
    OneDelimiter(buf[..], n, len);
  }

  lemma OneDelimiter(s: seq<byte>, n: nat, len: nat)
    requires 0 < n <= |s| && ZeroFree(s[..n][..n - 1]) && s[n - 1] == 0
    requires 0 < len <= |s| && ZeroFree(s[..len - 1]) && s[len - 1] == 0
    ensures n == len
  {
    assert forall i :: 0 <= i < n - 1 ==> s[..n][..n - 1][i] == s[i];
    assert forall i :: 0 <= i < len - 1 ==> s[..len - 1][i] == s[i];
  }

  /** The full blocks of a file; a shorter rest is dropped. */
  function FullBlocks(file: seq<byte>, blocksize: nat): (bs: seq<seq<byte>>)
    requires 0 < blocksize
    ensures forall i :: 0 <= i < |bs| ==> |bs[i]| == blocksize
  {
    if |file| < blocksize then []
    else [file[..blocksize]] + FullBlocks(file[blocksize..], blocksize)
  }

  function Joined(bs: seq<seq<byte>>): seq<byte> {
    if bs == [] then [] else bs[0] + Joined(bs[1..])
  }

  /** Length of the part of a file that full blocks cover. */
  function FullLength(len: nat, blocksize: nat): (n: nat)
    requires 0 < blocksize
    ensures n <= len
  {
    QuotientBounds(len, blocksize);
    len / blocksize * blocksize
  }

  /** There are as many full blocks as the division says, and joined they are the file up to
      the last of them. */
  lemma {:induction false} FullBlocksOfFile(file: seq<byte>, blocksize: nat)
    requires 0 < blocksize
    ensures |FullBlocks(file, blocksize)| == |file| / blocksize
    ensures Joined(FullBlocks(file, blocksize)) == file[..FullLength(|file|, blocksize)]
  {
    hide FullLength;
    if |file| < blocksize {
      QuotientBase(|file|, blocksize);
      assert file[..0] == [];
    } else {
      var first, rest := file[..blocksize], file[blocksize..];
      var n := FullLength(|rest|, blocksize);
      FullBlocksOfFile(rest, blocksize);
      QuotientStep(|file|, blocksize);
      assert ([first] + FullBlocks(rest, blocksize))[1..] == FullBlocks(rest, blocksize);
      assert file[..blocksize + n] == first + rest[..n];
    }
  }

  lemma QuotientBase(n: nat, d: nat)
    requires n < d
    ensures n / d == 0 && FullLength(n, d) == 0
  {
  }

  lemma QuotientStep(n: nat, d: nat)
    requires 0 < d <= n
    ensures n / d == (n - d) / d + 1
    ensures FullLength(n, d) == d + FullLength(n - d, d)
  {
    var p := (n - d) / d;
    QuotientBounds(n - d, d);
    ProductGrows(p, p, d);
    QuotientIs(n, d, p + 1);
  }

  /** `m` is what shipfile forms for `block` under the identifier `id`. */
  predicate ShippedBlock(m: Message, block: seq<byte>, id: uint32) {
    && Formed(m) && m.content == block
    && m.head == FormedHeader(0, 0, 0, 0, 0, id, |block|)
  }

  /** The messages shipfile forms for a list of blocks. */
  predicate Shipped(ms: seq<Message>, blocks: seq<seq<byte>>, ids: nat -> uint32) {
    && |ms| == |blocks|
    && AllFormed(ms)
    && forall i :: 0 <= i < |ms| ==> ShippedBlock(ms[i], blocks[i], ids(i))
  }

  lemma {:induction false} StreamAppend(ms: seq<Message>, m: Message)
    requires AllFormed(ms) && Formed(m)
    ensures AllFormed(ms + [m]) && Printable(m)
    ensures Stream(ms + [m]) == Stream(ms) + Frame(m)
  {
    hide Formed, Frame;
    FormedIsShaped(m);
    if ms == [] {
      assert ms + [m] == [m] && [m][1..] == [];
    } else {
      StreamAppend(ms[1..], m);
      assert (ms + [m])[1..] == ms[1..] + [m];
    }
  }

  /** form_msg and send_msg for one block: `socket` is what has been written so far. */
  method SendBlock(e: Endianness, databuf: seq<byte>, ids: nat -> uint32, socket: seq<byte>,
                   ghost sent: seq<Message>, ghost blocks: seq<seq<byte>>, blockcount: nat)
    returns (written: seq<byte>, ghost m: Message)
    requires |databuf| < CONTENT_LIMIT && blockcount == |blocks|
    requires Shipped(sent, blocks, ids) && socket == Stream(sent)
    ensures Shipped(sent + [m], blocks + [databuf], ids) && written == Stream(sent + [m])
  {
    hide Formed, Frame;
    var msg := FormMsg(0, 0, 0, 0, 0, ids(blockcount), databuf);
    FormedIsShaped(msg);
    var buf, len := MsgToCobs(e, msg);
    StreamAppend(sent, msg);
    m := msg;
    written := socket + buf[..len];
  }

  /** shipfile's loop, after the file has been opened: full blocks only. `ids` stands for the
      random message identifiers. */
  method Ship(e: Endianness, file: seq<byte>, blocksize: nat, ids: nat -> uint32)
    returns (socket: seq<byte>, blockcount: nat, bytecount: nat, ghost sent: seq<Message>)
    requires 0 < blocksize < CONTENT_LIMIT
    ensures blockcount == |file| / blocksize
    ensures bytecount == FullLength(|file|, blocksize)
    ensures Shipped(sent, FullBlocks(file, blocksize), ids) && socket == Stream(sent)
  {
    hide Shipped, Stream, FullBlocks;
    socket, blockcount, bytecount, sent := [], 0, 0, [];
    ghost var blocks: seq<seq<byte>> := [];
    NothingShipped(ids);
    assert file[0..] == file && blocks + FullBlocks(file, blocksize) == FullBlocks(file, blocksize);
    while |file| - bytecount >= blocksize
      invariant bytecount == blockcount * blocksize <= |file| && blockcount == |blocks|
      invariant blocks + FullBlocks(file[bytecount..], blocksize) == FullBlocks(file, blocksize)
      invariant AllFormed(sent) && Shipped(sent, blocks, ids) && socket == Stream(sent)
      decreases |file| - bytecount
    {
      var databuf := file[bytecount..bytecount + blocksize];
      ghost var m;
      socket, m := SendBlock(e, databuf, ids, socket, sent, blocks, blockcount);
      NextBlock(file, bytecount, blocksize, blocks);
      ShippedFormed(sent + [m], blocks + [databuf], ids);
      ProductGrows(blockcount, blockcount, blocksize);
      sent, blocks := sent + [m], blocks + [databuf];
      bytecount, blockcount := bytecount + blocksize, blockcount + 1;
    }
    QuotientIs(|file|, blocksize, blockcount);
    NoBlockLeft(file[bytecount..], blocksize);
    assert blocks + [] == blocks;
  }

  lemma NothingShipped(ids: nat -> uint32)
    ensures Shipped([], [], ids) && Stream([]) == []
  {
  }

  lemma ShippedFormed(ms: seq<Message>, blocks: seq<seq<byte>>, ids: nat -> uint32)
    requires Shipped(ms, blocks, ids)
    ensures AllFormed(ms)
  {
  }

  lemma NoBlockLeft(rest: seq<byte>, blocksize: nat)
    requires |rest| < blocksize
    ensures FullBlocks(rest, blocksize) == []
  {
  }

  lemma NextBlock(file: seq<byte>, at: nat, blocksize: nat, blocks: seq<seq<byte>>)
    requires 0 < blocksize && at + blocksize <= |file|
    requires blocks + FullBlocks(file[at..], blocksize) == FullBlocks(file, blocksize)
    ensures blocks + [file[at..at + blocksize]] + FullBlocks(file[at + blocksize..], blocksize)
         == FullBlocks(file, blocksize)
  {
    assert file[at..][..blocksize] == file[at..at + blocksize];
    assert file[at..][blocksize..] == file[at + blocksize..];
  }

  function Contents(ds: seq<Delivery>): seq<byte> {
    if ds == [] then [] else ds[0].content + Contents(ds[1..])
  }

  lemma ShippedSendableIff(m: Message, block: seq<byte>, id: uint32)
    requires ShippedBlock(m, block, id)
    ensures Sendable(m) <==> TotalLength(|block|) <= MAX_MESSAGE_SIZE
  {
  }

  lemma {:induction false} ShippedDelivered(ms: seq<Message>, blocks: seq<seq<byte>>, ids: nat -> uint32, blocksize: nat)
    requires Shipped(ms, blocks, ids)
    requires forall i :: 0 <= i < |blocks| ==> |blocks[i]| == blocksize
    ensures TotalLength(blocksize) <= MAX_MESSAGE_SIZE ==>
      && |CarriedBySendable(ms)| == |ms|
      && Contents(CarriedBySendable(ms)) == Joined(blocks)
    ensures TotalLength(blocksize) > MAX_MESSAGE_SIZE ==> CarriedBySendable(ms) == []
  {
    hide Formed, ShippedBlock, Sendable, TotalLength;
    if ms != [] {
      assert ShippedBlock(ms[0], blocks[0], ids(0));
      ShippedSendableIff(ms[0], blocks[0], ids(0));
      ShippedDelivered(ms[1..], blocks[1..], i => ids(i + 1), blocksize);
      ShippedContent(ms[0], blocks[0], ids(0));
      var ds := CarriedBySendable(ms);
      assert Sendable(ms[0]) ==> ds[1..] == CarriedBySendable(ms[1..]);
    }
  }

  lemma ShippedContent(m: Message, block: seq<byte>, id: uint32)
    requires ShippedBlock(m, block, id)
    ensures Carried(m).content == block
  {
  }

  /** The stream of a file shipped in blocks that fit a message, split at its zeros and judged
      chunk by chunk, delivers one block for each full block of the file, and the contents put
      together are the file up to its last full block. Larger blocks are all refused. What the
      reader, with its buffer, makes of the stream is in Transfer. */
  lemma ShippedFileReceived(ms: seq<Message>, file: seq<byte>, blocksize: nat, ids: nat -> uint32)
    requires 0 < blocksize && Shipped(ms, FullBlocks(file, blocksize), ids)
    ensures TotalLength(blocksize) <= MAX_MESSAGE_SIZE ==>
      && |Deliveries(Stream(ms))| == |file| / blocksize
      && Contents(Deliveries(Stream(ms))) == file[..FullLength(|file|, blocksize)]
    ensures TotalLength(blocksize) > MAX_MESSAGE_SIZE ==> Deliveries(Stream(ms)) == []
  {
    hide Deliveries, Stream, FullBlocks, FullLength, ShippedBlock, TotalLength, Joined, Contents;
    FullBlocksOfFile(file, blocksize);
    EndToEnd(ms);
    ShippedDelivered(ms, FullBlocks(file, blocksize), ids, blocksize);
  }
}
