/** Transfers from server to client: what the senders write, read by read_blocks.

    Splitting and judging a stream is one thing; the reader does it as long as its frames fit the
    buffer it has cleared. For streams of formed messages that is a condition on the length of
    each frame, and the senders' streams are such streams. */
module Transfer {
  import opened Bytes
  import opened ByteOrder
  import opened CobsBlocks
  import opened CobsDecoding
  import opened CobsLengths
  import opened Messages
  import opened MessageLaws
  import opened Frames
  import opened ReadBlocks
  import opened ShipFile
  import opened FileHandle
  import opened SenderRuns
  import opened ServerChannel

  // ----- what fits the reader

  /** The frame of `m`, its delimiter included, is no longer than the buffer the reader clears. */
  predicate FrameShort(m: Message)
    requires Formed(m)
  {
    FormedIsShaped(m);
    |Frame(m)| <= BLOCK_INITIAL_SIZE
  }

  predicate FramesShort(ms: seq<Message>)
    requires AllFormed(ms)
  {
    forall i :: 0 <= i < |ms| ==> FrameShort(ms[i])
  }

  lemma FirstFrameFitsIff(w: seq<byte>, rest: seq<byte>)
    requires ZeroFree(w) && Accepted(w)
    ensures FramesFit(w + [0] + rest) <==> |w| < BLOCK_INITIAL_SIZE && FramesFit(rest)
  {
    hide Accepted;
    var s := w + [0] + rest;
    FirstZeroIs(s, |w|);
    assert s[..|w|] == w && s[|w| + 1..] == rest;
  }

  lemma FrameFitsIff(m: Message, rest: seq<byte>)
    requires Formed(m) && Printable(m)
    ensures FramesFit(Frame(m) + rest) <==> FrameShort(m) && FramesFit(rest)
  {
    hide Accepted, Wire, Split, MessageBytes, Formed, FramesFit;
    var x := MessageBytes(m);
    var w := Wire(Split(x));
    EncodeAccepted(x);
    assert Encode(x)[..|w|] == w;
    FirstFrameFitsIff(w, rest);
  }

  /** The reader can rely on the stream of any formed messages exactly if each frame is short. */
  lemma {:induction false} StreamFitsIff(ms: seq<Message>)
    requires AllFormed(ms)
    ensures FramesFit(Stream(ms)) <==> FramesShort(ms)
  {
    hide Frame, FrameShort, Formed;
    if ms == [] {
      EmptyStreamFits();
    } else {
      var rest := ms[1..];
      FormedIsShaped(ms[0]);
      StreamFitsIff(rest);
      FrameFitsIff(ms[0], Stream(rest));
      assert forall i :: 0 < i < |ms| ==> ms[i] == rest[i - 1];
      assert forall i :: 0 <= i < |rest| ==> rest[i] == ms[i + 1];
    }
  }

  lemma EmptyStreamFits()
    ensures FramesFit([])
  {
  }

  /** A short frame is that of a message within the limit, and the worst case bounds it. */
  lemma ShortFrame(m: Message)
    requires Formed(m)
    ensures FrameShort(m) ==> TotalLength(|m.content|) <= MAX_MESSAGE_SIZE
    ensures WorstCase(TotalLength(|m.content|)) <= BLOCK_INITIAL_SIZE ==> FrameShort(m)
  {
    hide Encode, TotalLength, WorstCase;
    FormedIsShaped(m);
    EncodedLength(MessageBytes(m));
  }

  // ----- any messages

  /** send_msg for each message of a list. */
  method SendAll(e: Endianness, ms: seq<Message>) returns (socket: seq<byte>)
    requires AllFormed(ms)
    ensures socket == Stream(ms)
  {
    hide Frame, Formed;
    socket := [];
    var i := 0;
    while i < |ms|
      invariant 0 <= i <= |ms| && AllFormed(ms[..i]) && socket == Stream(ms[..i])
    {
      FormedIsShaped(ms[i]);
      var buf, len := MsgToCobs(e, ms[i]);
      socket := socket + buf[..len];
      StreamAppend(ms[..i], ms[i]);
      assert ms[..i + 1] == ms[..i] + [ms[i]];
      i := i + 1;
    }
    assert ms[..i] == ms;
  }

  /** Any formed messages with short frames, sent by one host and read by another: the reader gets
      the sendable ones, in order and intact, and counts them. */
  method TransferMessages(server: Endianness, client: Endianness, ms: seq<Message>)
    returns (blockcount: nat, received: seq<Delivery>)
    requires AllFormed(ms) && FramesShort(ms)
    ensures received == CarriedBySendable(ms)
    ensures blockcount == |received|
  {
    hide Stream, Deliveries, FramesFit, Formed, FrameShort;
    var socket := SendAll(server, ms);
    StreamFitsIff(ms);
    EndToEnd(ms);
    blockcount, received := ReadBlocks.ReadBlocks(client, socket);
  }

  // ----- one file in blocks

  /** The frame in which shipfile sends `block` is short. */
  ghost predicate BlockFits(block: seq<byte>, id: uint32) {
    forall m :: ShippedBlock(m, block, id) ==> FrameShort(m)
  }

  /** It is one frame that is meant. */
  lemma BlockFitsIff(m: Message, block: seq<byte>, id: uint32)
    requires ShippedBlock(m, block, id)
    ensures BlockFits(block, id) <==> FrameShort(m)
  {
    hide Formed, FrameShort;
    forall n | ShippedBlock(n, block, id)
      ensures n == m
    {
      FormedUnique(m, n);
    }
  }

  lemma ShortBlockFits(block: seq<byte>, id: uint32)
    requires WorstCase(TotalLength(|block|)) <= BLOCK_INITIAL_SIZE
    ensures BlockFits(block, id)
  {
    hide Formed, FrameShort, TotalLength, WorstCase;
    forall m | ShippedBlock(m, block, id)
      ensures FrameShort(m)
    {
      ShortFrame(m);
    }
  }

  /** Every full block of the file fits. */
  ghost predicate BlocksFit(blocks: seq<seq<byte>>, ids: nat -> uint32) {
    forall i :: 0 <= i < |blocks| ==> BlockFits(blocks[i], ids(i))
  }

  lemma ShippedShortIff(ms: seq<Message>, blocks: seq<seq<byte>>, ids: nat -> uint32)
    requires Shipped(ms, blocks, ids)
    ensures FramesShort(ms) <==> BlocksFit(blocks, ids)
  {
    hide Formed, FrameShort, BlockFits;
    forall i | 0 <= i < |ms|
      ensures ShippedBlock(ms[i], blocks[i], ids(i))
      ensures FrameShort(ms[i]) <==> BlockFits(blocks[i], ids(i))
    {
      BlockFitsIff(ms[i], blocks[i], ids(i));
    }
  }

  /** If there is a block at all and it fits, the block size is within the message limit. */
  lemma BlockSizeInLimit(ms: seq<Message>, blocks: seq<seq<byte>>, ids: nat -> uint32)
    requires Shipped(ms, blocks, ids) && FramesShort(ms) && ms != []
    ensures TotalLength(|blocks[0]|) <= MAX_MESSAGE_SIZE
  {
    hide Formed, FrameShort, TotalLength;
    assert ShippedBlock(ms[0], blocks[0], ids(0));
    ShortFrame(ms[0]);
  }

  /** What a client counts when a server ships one file: the full blocks, whatever the byte
      orders of the two hosts and whatever the message identifiers. */
  method TransferFile(server: Endianness, client: Endianness, file: seq<byte>, blocksize: nat,
                      ids: nat -> uint32)
    returns (blockcount: nat, contents: seq<byte>)
    requires 0 < blocksize < CONTENT_LIMIT && BlocksFit(FullBlocks(file, blocksize), ids)
    ensures blockcount == |file| / blocksize
    ensures contents == file[..FullLength(|file|, blocksize)]
  {
    hide Stream, Deliveries, FramesFit, FullBlocks, FullLength, Joined, Contents, Formed, TotalLength,
         BlocksFit, FramesShort;
    var socket, _, _, sent := Ship(server, file, blocksize, ids);
    ghost var blocks := FullBlocks(file, blocksize);
    ShippedShortIff(sent, blocks, ids);
    StreamFitsIff(sent);
    ShippedFileReceived(sent, file, blocksize, ids);
    FullBlocksOfFile(file, blocksize);
    if sent == [] {
      NothingReceived(blocks);
      EndToEnd(sent);
    } else {
      BlockSizeInLimit(sent, blocks, ids);
    }
    var received;
    blockcount, received := ReadBlocks.ReadBlocks(client, socket);
    contents := Contents(received);
  }

  lemma NothingReceived(blocks: seq<seq<byte>>)
    ensures Contents([]) == [] && (blocks == [] ==> Joined(blocks) == [])
  {
  }

  /** The block size the server is built with meets the reader's limit, whatever the block. */
  lemma BuiltInBlockSizeFits(block: seq<byte>, id: uint32)
    requires |block| == 4096
    ensures BlockFits(block, id)
  {
    hide BlockFits;
    BuiltInWorstCase();
    ShortBlockFits(block, id);
  }

  lemma BuiltInWorstCase()
    ensures WorstCase(TotalLength(4096)) <= BLOCK_INITIAL_SIZE
  {
  }

  // ----- the sending thread

  lemma ShortPasses(sent: seq<Message>, events: seq<Event>)
    requires Records(sent, events) && FramesShort(sent)
    ensures AllPass(events)
  {
    hide Formed, FrameShort, TotalLength;
    forall i | 0 <= i < |events|
      ensures TotalLength(|events[i].data|) <= MAX_MESSAGE_SIZE
    {
      assert MessageFor(sent[i], events[i]);
      ShortFrame(sent[i]);
    }
  }

  /** What read_blocks makes of the output of a thread at any time, if the frames are short: a
      block for each transmission, with its number and data, and the file once the first pass is
      over. */
  method ReadOutput(client: Endianness, c: Channel, ghost requests: seq<Option<uint64>>)
    returns (blockcount: nat, received: seq<Delivery>)
    requires c.Valid() && c.Abs() == Run(c.file, c.maxSize, requests) && FramesShort(c.sent)
    ensures blockcount == |received| == |Transmitted(c.log)|
    ensures forall i :: 0 <= i < |received| ==> Delivers(received[i], Transmitted(c.log)[i])
    ensures c.finishedFt && Reachable(|c.file|, c.maxSize) ==>
      HoldsFile(received, c.file, c.maxSize)
  {
    hide Stream, Deliveries, FramesFit, Formed, FrameShort, Run, Transmitted, HoldsFile, AllPass,
         NumSegments, Reachable, Delivers;
    StreamFitsIff(c.sent);
    ShortPasses(c.sent, Transmitted(c.log));
    OutputDelivered(c.sent, Transmitted(c.log));
    if c.finishedFt && Reachable(|c.file|, c.maxSize) {
      FileReachesReader(c.file, c.maxSize, requests, c.sent);
    }
    blockcount, received := ReadBlocks.ReadBlocks(client, c.socket);
  }

  /** Whatever the random identifiers, the frames of these transmissions are short. */
  ghost predicate OutputFits(events: seq<Event>) {
    forall sent :: Records(sent, events) ==> FramesShort(sent)
  }

  /** Segments whose worst-case frame fits always do. */
  lemma ShortSegmentsFit(events: seq<Event>, size: nat)
    requires WorstCase(TotalLength(size)) <= BLOCK_INITIAL_SIZE
    requires forall i :: 0 <= i < |events| && !events[i].Took? ==> |events[i].data| <= size
    ensures OutputFits(events)
  {
    hide Formed, FrameShort;
    forall sent | Records(sent, events)
      ensures FramesShort(sent)
    {
      forall i | 0 <= i < |sent|
        ensures FrameShort(sent[i])
      {
        assert MessageFor(sent[i], events[i]);
        ShorterFits(|events[i].data|, size);
        ShortFrame(sent[i]);
      }
    }
  }

  lemma ShorterFits(len: nat, size: nat)
    requires len <= size
    ensures WorstCase(TotalLength(len)) <= WorstCase(TotalLength(size))
  {
  }

  /** A thread served with any requests, also those that spoil its list, and its output read. */
  method ServeAndRead(server: Endianness, client: Endianness, c: Channel,
                      requests: seq<Option<uint64>>, ids: nat -> uint32)
    returns (blockcount: nat, received: seq<Delivery>)
    requires c.Valid() && c.Abs() == Initial()
    requires OutputFits(Transmitted(Run(c.file, c.maxSize, requests).log))
    modifies c, c.sendSec, c.retransSec
    ensures var st, events := Run(c.file, c.maxSize, requests), Transmitted(Run(c.file, c.maxSize, requests).log);
      && blockcount == |received| == |events|
      && (forall i :: 0 <= i < |events| ==> Delivers(received[i], events[i]))
      && (st.finished && Reachable(|c.file|, c.maxSize) ==> HoldsFile(received, c.file, c.maxSize))
  {
    hide Stream, Records, Run, Transmitted, HoldsFile, NumSegments, Reachable, Delivers;
    Serve(server, c, requests, ids);
    RecordsFormed(c.sent, Transmitted(c.log));
    blockcount, received := ReadOutput(client, c, requests);
  }

  lemma RecordsFormed(sent: seq<Message>, events: seq<Event>)
    requires Records(sent, events)
    ensures AllFormed(sent)
    ensures OutputFits(events) ==> FramesShort(sent)
  {
    hide Formed, FrameShort;
  }
}
