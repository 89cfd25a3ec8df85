# hipFT: a model of the framed file transfer and its error detection

hipFT sends files as messages with layered error detection. A message has a header, a content with
vertical and horizontal parity, and a trailer that repeats the header. It is printed in network
order, framed with COBS (Cheshire and Baker's Consistent Overhead Byte Stuffing) and written to a
stream with 0x00 between frames. The client splits the stream at zeros and verifies, decodes, parses
and validates each chunk. A second sender, the per-channel server thread, sends the segments of a
file once and then answers retransmission requests kept as a set of intervals.

The project models these parts and proves what they promise to each other, from the bits of a parity
word to the file a reader gets. `dafny verify dfyconfig.toml` checks it.

| file | what it holds |
|---|---|
| Arithmetic, Bytes | shared facts; bytes, words, bits, weight, exclusive or, big-endian strings |
| ByteOrder | conversion between host and network order on either kind of host |
| CobsBlocks, CobsDecoding, CobsLengths | what COBS strings mean; encoder against decoder; lengths |
| Cobs, CobsPartial | the COBS routines on buffers; recovery of the start of a damaged frame |
| Parity, ErrorUtil | the two parities and exactly what they detect; Hamming distance |
| Messages, MessageLaws, MessageCodec | messages, their laws, and the routines that print, parse and verify them |
| HandleErrors, Frames, ReadBlocks | judging messages and frames; streams; the client's reader |
| ShipFile, Transfer | the server's block sender; what the reader makes of messages, of a shipped file and of the sending thread's output |
| Sections, FileHandle, SenderRuns, ServerChannel | interval sets; segments; all runs of the sending thread; the thread itself |

## How the C code is read

- A read-only buffer is a `seq<byte>`, a buffer that is written is an `array<byte>`. Memory from
  `malloc` is a new array with arbitrary contents; that matters in the reader, whose decode buffer is
  not cleared. Allocation succeeds for the sizes that occur, also for size zero; it fails for the
  negative `int` that `msg_body_from_bytes` can pass it.
- Headers are 56 bytes without padding.
- The masks `1 << (i % 64)` of parity.c are taken as 64-bit masks with one bit.
- The random message identifier is an argument. Byte order is an argument of every routine that
  converts, so results hold on both kinds of host and between them.
- Where the code and its comments disagree the code is followed:
  vertical parity is documented for 256 columns and samples 32 of them;
  `cobs_encoded_length_from_decoded` is documented as the encoded length and is one too large when
  the input does not end inside an open block; `cobs_encoded_length_best_case` is not a lower bound;
  the 0xFF test of `cobs_partial_decode` compares with 0x255 and never fires;
  read_blocks.c says that a frame is longer than its decoded data, and it can be equally long.

## Where a promise fails, and exactly when it holds

- `cobs_decode` inverts `cobs_encode` with the delimiter counted exactly on inputs that do not end
  inside an open block, and without it exactly on inputs that do not end in zero
  (`DecodeInvertsEncodeIff`). Two inputs share a frame exactly when they differ by the closing zero of
  an open end (`EncodeCollisions`).
- Recovering the first n bytes of a damaged frame works for all frames exactly when n <= 254
  (`RecoversAllIff`), and for one given data string exactly when, within those n bytes, only zeros
  follow any 254 bytes in a row that are not zero (`RecoveryRightIff`).
- The reader does to a stream what splitting and judging says as long as its accepted frames are
  shorter than 8192 bytes. For a stream of formed messages that is so exactly if each frame with its
  delimiter has at most 8192 bytes (`StreamFitsIff`). A longer frame makes the C code look for a
  terminator in memory it has not cleared; about that the model says nothing.
- `add_to_section` is set union unless zero is added next to the largest 64-bit number; the
  condition is `Wraps`, said of the set in `WrapsIff`, with an input in `AddZeroAfterMax`. When it
  wraps, the number added and the largest number are both no members of the list that is left
  (`AddedIsUnionIff`), and no deletion takes the spoiled piece away (`DeletedKeepsSpoiled`).
- Segment numbers of requests come from received messages, so the sending thread can meet that case.
  The laws of the first pass hold for all requests. Those of retransmission (`ConservedInRun`,
  `NoRequestLost`, `ResendsBounded`) hold of runs with safe requests, in which no request wraps.
  Requests are kept in every state of a run exactly if they are safe (`RequestsKeptIffSafe`, and
  `SafeIff` in terms of what was asked for and sent); they are if none is for 2^64-1
  (`SafeWithoutMax`). Requests for 2^64-1 and then 0 are lost in every transfer: the second is never
  answered, and the first, made once, is answered in every round after the first pass (`FatalPair`).
  In general a spoiled list is answered down to its last piece and then one number is sent for ever
  (`StuckAfterWrap`); a list is some time empty again exactly if none of its pieces has its bounds
  the wrong way round (`DrainsIff`).
- Cutting a file into segments is lossless for all files of a length exactly when the last segment
  starts below 2^32 (`LosslessIff`).
- The reader's undelimited decode leaves the last byte of a message unwritten. Whether the frame
  counts, and what it delivers, does not depend on that byte (`JudgeIgnoresUnwritten`), but the parsed
  message passes `verify_msg` only if the byte happens to be zero (`LastByteOfFormed`,
  `LastByteVerifiedIff`).

## Model

| member | source | states |
|---|---|---|
| `Bytes.BitIsDigit` | justin-snapshot/src/parity.c:38-49 | the bit a one-bit mask picks is the binary digit at that place |
| `ByteOrder.NetworkOrder` | justin-snapshot/src/byte_order.c:16-56 | the conversion loop never overflows its word; on a little-endian host digit i in base 256 of its value is digit n - 1 - i of the argument, on a big-endian one it is the argument |
| `Bytes.ToBEDigits` | justin-snapshot/src/message.c:109-130 | network order: byte i of n is the digit of weight 256^(n-1-i), the most significant first |
| `ByteOrder.InMemoryDigits` | justin-snapshot/src/byte_order.c:16-56 | which digit of a value a host of either order keeps at each place |
| `ByteOrder.SwappedDigits` | justin-snapshot/src/byte_order.c:16-56 | conversion turns the digits around on a little-endian host and keeps them on a big-endian one |
| `ByteOrder.SwappedInMemoryIsBigEndian` | justin-snapshot/src/byte_order.c:16-56 | a converted value lies in memory in network order, whatever the host |
| `ByteOrder.SwappedTwice` | justin-snapshot/src/byte_order.c:53-56 | conversion is its own inverse, so one routine serves both directions |
| `ByteOrder.AcrossHosts` | justin-snapshot/src/byte_order.c:16-56 | a value survives from any writer to any reader |
| `CobsBlocks.MeaningOfSplit` | justin-snapshot/src/cobs.c:8-30 | the blocks the encoder makes of any input stand for that input, completed by one zero exactly when its trailing non-zero run is not a multiple of 254 |
| `CobsBlocks.SplitOfMeaning` | justin-snapshot/src/cobs.c:8-30 | any sequence of valid blocks is what the encoder makes of the bytes it stands for |
| `CobsBlocks.AcceptedIffWire` | justin-snapshot/src/cobs.c:102-136 | zero-free strings whose length bytes end exactly at the end are exactly the wire forms of valid blocks |
| `Cobs.CobsEncode` | justin-snapshot/src/cobs.c:6-30 | the back-patching loop writes the frame of its input and touches nothing behind it |
| `Cobs.CobsDecode` | justin-snapshot/src/cobs.c:32-45 | on every buffer the length bytes do not lead out of, writes the decoding and nothing else |
| `Cobs.AltCobsVerify` | justin-snapshot/src/cobs.c:102-136 | true exactly on zero-free buffers that split into blocks ending at the end |
| `Cobs.CobsVerify` | justin-snapshot/src/cobs.c:139-158 | the one-pass countdown gives the same answer as the other verifier on every buffer |
| `Cobs.EncodedLengthFromEncoded` | justin-snapshot/src/cobs.c:160-165 | the length up to and including the first zero |
| `Cobs.EncodedLengthFromDecoded` | justin-snapshot/src/cobs.c:167-178 | computes input length plus two plus one for each completed 254-byte run |
| `Cobs.DecodedLengthFromEncoded` | justin-snapshot/src/cobs.c:183-209 | the number of bytes an accepted, terminated frame stands for; the final assertion of the source holds |
| `CobsDecoding.DecodeDelimited` | justin-snapshot/src/cobs.c:32-45 | decoding a frame with its delimiter gives what its blocks stand for |
| `CobsDecoding.DecodeUndelimited` | justin-snapshot/src/cobs.c:32-45 | decoding without the delimiter misses exactly the closing zero of the last block |
| `CobsDecoding.DecodeCounted` | justin-snapshot/src/cobs.c:32-45 | on any buffer, frame or not: a length byte up to 255 gives the bytes behind it, zeros among them or not, and a zero unless it is 255 or the buffer ends |
| `CobsDecoding.DecodeZeroLength` | justin-snapshot/src/cobs.c:32-45 | a zero in the place of a length byte is taken like a one |
| `CobsDecoding.EncodeDecode` | justin-snapshot/src/cobs.c:8-45 | for every x, decoding the frame of x gives x, plus one zero exactly when x ends open |
| `CobsDecoding.EncodeDecodeUndelimited` | justin-snapshot/src/cobs.c:8-45 | for every x, decoding without the delimiter gives x less one final zero if it has one |
| `CobsDecoding.DecodeInvertsEncodeIff` | justin-snapshot/src/cobs.c:8-45 | when each way of calling the decoder inverts the encoder, both directions |
| `CobsDecoding.DecodeEncode` | justin-snapshot/src/cobs.c:8-45 | every accepted frame is the encoding of its decoding |
| `CobsDecoding.EncodeCollisions` | justin-snapshot/src/cobs.c:26-29 | two inputs have one frame exactly when equal or differing by the zero that closes an open end |
| `CobsDecoding.EncodeInjectiveOnZeroEnded` | justin-snapshot/src/cobs.c:8-45 | on inputs ending in zero the codec is a bijection onto its frames |
| `CobsDecoding.DecodeAccepted` | justin-snapshot/src/cobs.c:32-45 | on every accepted non-empty frame the decoder stays inside it; with and without delimiter the results differ by the last block's closing zero and fit the frame's length |
| `CobsDecoding.EncodeAccepted` | justin-snapshot/src/cobs.c:8-30 | the encoder's output has its only zero at the end and is accepted without it |
| `CobsLengths.EncodedLength` | justin-snapshot/src/cobs.c:167-178 | the predicted length is exact when the input ends open and one too large otherwise; the frame has between len+1 and len+2+len/254 bytes |
| `CobsLengths.LongestFrame` | justin-snapshot/src/cobs.c:211 | the worst case is reached for every length that 254 does not divide, by bytes other than zero; for the other lengths the longest frame has one byte less |
| `CobsLengths.BestCaseIsBoundIff` | justin-snapshot/src/cobs.c:213 | len+2 bounds the frame from below exactly when the input ends open or has a full run |
| `CobsLengths.BestCaseFails` | justin-snapshot/src/cobs.c:213 | a one-byte input whose frame is shorter than the best case |
| `CobsLengths.DoubleBufferSuffices` | justin-snapshot/src/socket_msg_help.c:30-36 | twice the input is room enough for the frame of any input of three bytes or more |
| `CobsPartial.CobsPartialDecode` | justin-snapshot/src/cobs.c:50-93 | the nested loops report and store what the partial decoding says, also on failure, and nothing behind it |
| `CobsPartial.PartialDecodeMet` | justin-snapshot/src/cobs.c:50-93 | a request on a source without zeros is met exactly if it is for nothing or the source is longer; at equal lengths it fails with all but the last byte stored |
| `CobsPartial.PartialCounted` | justin-snapshot/src/cobs.c:58-90 | on any source: what a length byte and any bytes behind it contribute, and that a zero in the place of a length byte ends in failure |
| `CobsPartial.RecoverPrefix` | justin-snapshot/src/cobs.c:50-93 | if the first n+1 bytes of a frame of x arrived, n <= 254, exactly the first n bytes of x are recovered, whatever follows |
| `CobsPartial.LongRunSpoiled` | justin-snapshot/src/cobs.c:64-86 | at every request above 254 a run of ones does not come back |
| `CobsPartial.RecoversAllIff` | justin-snapshot/src/cobs.c:50-93 | recovery is right for all frames exactly for requests up to 254 |
| `CobsPartial.RecoveryRightIff` | justin-snapshot/src/cobs.c:50-93 | for every request size and every data string whose frame started intact: recovery is right exactly if within the request only zeros follow 254 bytes other than zero |
| `Parity.ComputeVParity` | justin-snapshot/src/parity.c:28-52 | each of the 256 bits makes its sampled column odd |
| `Parity.CheckVParity` | justin-snapshot/src/parity.c:61-80 | accepts exactly the vertical parity of the buffer |
| `Parity.VParityBits` | justin-snapshot/src/parity.c:38-49 | digit i % 64 of word i / 64 is one exactly if, of bytes i % 32, i % 32 + 32, ..., an even number has digit i % 8 set |
| `Parity.ColumnCountsSampledOnes` | justin-snapshot/src/parity.c:38-46 | a column's count is the number of bytes at distance a multiple of 32 with the sampled bit set |
| `Parity.VParityUnique` | justin-snapshot/src/parity.c:28-52 | a buffer has one vertical parity |
| `Parity.ComputeHParity` | justin-snapshot/src/parity.c:108-139 | each bit makes its 32-bit word odd, a short last word included; spare bits are clear |
| `Parity.CheckHParity` | justin-snapshot/src/parity.c:148-169 | accepts exactly when every word with its bit is odd |
| `Parity.HParityBits` | justin-snapshot/src/parity.c:120-138 | digit i % 8 of byte i / 8 is one exactly if bytes 4i to 4i + 3 have an even number of ones between them, and zero beyond the buffer |
| `Parity.HParityUnique` | justin-snapshot/src/parity.c:108-139 | a buffer has one horizontal parity |
| `Parity.WeightByNibbles` | justin-snapshot/src/parity.c:6-10 | the nibble table looked up twice gives the number of ones of a byte |
| `Parity.WordsFit` | justin-snapshot/src/parity.c:87-98 | the parity bytes have a bit for every word and the words cover the buffer, with no word and no parity byte too many |
| `Parity.VParityDetects` | justin-snapshot/src/parity.c:28-80 | a change of content passes the vertical check exactly when in each of the 32 sampled columns the number of changed bits is even |
| `Parity.HParityDetects` | justin-snapshot/src/parity.c:108-169 | a change of content passes the horizontal check exactly when in every word the number of changed bits is even |
| `ErrorUtil.TableIsWeight` | client/error_util.c:7-24 | all 256 table entries are the numbers of ones |
| `ErrorUtil.HdCmp` | client/error_util.c:29-42 | returns the number of differing bits and leaves the differences in the buffer |
| `ErrorUtil.DistanceCounts` | client/error_util.c:29-42 | the distance is the number of places, byte and bit, at which the digits differ |
| `ErrorUtil.DistanceZeroIffEqual` | client/error_util.c:29-42 | distance zero exactly for equal buffers |
| `ErrorUtil.DistanceSymmetric` | client/error_util.c:29-42 | the distance is symmetric |
| `ErrorUtil.DistanceTriangle` | client/error_util.c:29-42 | the triangle inequality |
| `ErrorUtil.OddDistanceRejected` | justin-snapshot/src/parity.c:148-169 | a same-length change at odd distance is always rejected by the horizontal check |
| `Messages.FormMsg` | justin-snapshot/src/message.c:69-105 | every header field is the argument it stands for, and lengths, parities and trailer follow from the arguments |
| `MessageLaws.FormedLengths` | justin-snapshot/src/message.c:15-35 | the four lengths in a formed header are those of the pieces: total of the printed message, body, content, and parity; mbz and crc are zero |
| `Messages.FormedUnique` | justin-snapshot/src/message.c:69-105 | header and content determine the formed message |
| `Messages.HeaderOfBytes` | justin-snapshot/src/message.c:109-130 | a printed header reads back as itself |
| `Messages.BytesOfHeader` | justin-snapshot/src/message.c:280-330 | a header read from 56 bytes prints as those bytes |
| `Messages.HeaderLayout` | justin-snapshot/src/message.c:109-130 | at which of the 56 bytes each field lies |
| `MessageLaws.MessageLayout` | justin-snapshot/src/message.c:140-192 | at which bytes of a printed message header, content, the vertical parity words, horizontal parity and trailer lie |
| `MessageCodec.HeaderToBytes` | justin-snapshot/src/message.c:109-135 | writes the 56 big-endian header bytes at its place and nothing else |
| `MessageCodec.MsgToBytes` | justin-snapshot/src/message.c:140-192 | fills a buffer of exactly the calculated total length with header, content, parities and trailer |
| `MessageCodec.HeaderFromBytes` | justin-snapshot/src/message.c:280-338 | reads a header exactly if 56 bytes are left |
| `MessageCodec.BodyFromBytes` | justin-snapshot/src/message.c:208-278 | reads the body exactly if content and parity lengths are in range and fit, the `int` conversion included |
| `MessageCodec.MsgFromBytes` | justin-snapshot/src/message.c:349-377 | for every input, never reads past its end and succeeds exactly when contentLength < 65536, 32 <= parityLength < 2^31+32 and 112 plus both fits, whatever the other fields hold |
| `MessageLaws.ParsedFrom` | justin-snapshot/src/message.c:208-377 | which inputs parse, said of bytes 16 to 23 and the number of bytes, and from which bytes each piece is read |
| `MessageCodec.VerifyMsg` | justin-snapshot/src/message.c:416-496 | accepts exactly the messages `Verified` describes |
| `MessageLaws.FormedVerified` | justin-snapshot/src/message.c:416-496 | every formed message is accepted |
| `MessageLaws.VerifiedIsFormed` | justin-snapshot/src/message.c:416-496 | a message with pieces of the announced sizes is accepted exactly if it is what form_msg makes of its content and header fields, in header, trailer, lengths and both parities, apart from the two mbz fields and the parity bits that belong to no word |
| `MessageLaws.ContentChangeAcceptedIff` | justin-snapshot/src/message.c:480-488 | replaced content of the same length is accepted exactly when the change is even in every word and every sampled column |
| `MessageLaws.ParsePrinted` | justin-snapshot/src/message.c:140-377 | a formed message comes back from its bytes, with any bytes behind them, exactly when its content is below 65536 bytes |
| `MessageLaws.PrintParsedIff` | justin-snapshot/src/message.c:140-377 | a parsed message prints as the bytes it came from exactly when its parity length is the one its content calls for |
| `MessageLaws.PrintVerified` | justin-snapshot/src/message.c:140-496 | a message that parses and verifies prints as the first totalLength bytes it came from |
| `MessageLaws.LastByteIrrelevant` | justin-snapshot/src/message.c:349-377 | the last input byte affects neither whether parsing succeeds nor anything but the trailer |
| `MessageLaws.LastByteOfFormed` | client/read_blocks.c:124-132 | with any last byte a formed message parses to itself with that byte as trailer crc |
| `MessageLaws.LastByteVerifiedIff` | justin-snapshot/src/message.c:458-461 | such a message verifies exactly if the byte is zero |
| `HandleErrors.HceTryHeader` | client/handle_errors.c:97-118 | reports no header, a fragment or a smashed packet from the partially decoded header |
| `HandleErrors.NoHeaderIff` | client/handle_errors.c:103-104 | a chunk of a stream shows no header exactly if it has 56 bytes or fewer |
| `HandleErrors.TrueHeaderSeen` | client/handle_errors.c:97-118 | if 57 bytes of a frame arrived, the true header is seen, and a fragment is reported exactly if the buffer is shorter than the message |
| `HandleErrors.TruncationDiagnosed` | client/handle_errors.c:106-113 | a frame cut between its header and its announced length is called a fragment |
| `Frames.FrameIsolation` | client/read_blocks.c:82-156 | a frame contributes what it delivers alone, between what the stream before and after delivers |
| `Frames.NoFrame` | client/read_blocks.c:75-168 | bytes after the last delimiter deliver nothing |
| `Frames.DamagedFrame` | client/read_blocks.c:82-156 | damage that keeps a frame one frame moves the count by at most one and leaves all other deliveries as they were |
| `Frames.SingleByteDamage` | client/read_blocks.c:82-156 | any byte of any stream replaced by any other moves the count by at most two, by at most one if no delimiter comes or goes |
| `Frames.DeliveriesSane` | client/handle_errors.c:236-273 | whatever the stream, everything delivered has a known channel and data type, a total length within the message limit, no smaller than its body length and no larger than what arrived, and pieces of the announced sizes |
| `Frames.JudgedSane` | client/handle_errors.c:236-273 | of a single chunk: total length and announced pieces are no more than the chunk stands for |
| `Frames.JudgePrinted` | client/handle_errors.c:236-273 | bytes that hold a message with true content and parity lengths are delivered exactly if content < 65536, chanType <= 1, dataType <= 4, bodyLength <= totalLength <= 65536 and totalLength is at most the number of bytes; nothing else is asked |
| `Frames.DamagedHeaderJudged` | client/handle_errors.c:236-273 | the frame of a formed message with any damage to the header that leaves these two lengths is delivered exactly if the same tests pass |
| `Frames.JudgeFrameOf` | client/read_blocks.c:110-142 | the frame of a formed message delivers it exactly if chanType <= 1, dataType <= 4 and totalLength <= 65536 |
| `Frames.EndToEnd` | client/read_blocks.c:65-164 | for every list of formed messages, splitting and judging the stream of their frames delivers exactly the sendable ones, in order, with header, content and parities |
| `Frames.AllDelivered` | client/read_blocks.c:138-142 | as many are delivered as were sent exactly if all are sendable, and then each one is |
| `ReadBlocks.JudgeIgnoresUnwritten` | client/read_blocks.c:124-142 | for every accepted frame the verdict and the delivery do not depend on the byte the undelimited decode leaves unwritten |
| `ReadBlocks.JudgeFrame` | client/read_blocks.c:99-142 | verify, decode into an uncleared buffer, parse and validate give what the frame delivers |
| `ReadBlocks.ReadChunk` | client/read_blocks.c:75-156 | the inner loop collects the bytes up to the next zero or the end, growing its buffer; a zero follows them as long as they are fewer than 8192 |
| `ReadBlocks.ReadBlocks` | client/read_blocks.c:65-168 | for every stream whose accepted frames are shorter than 8192 bytes, counts and collects what splitting at zeros and judging each chunk alone delivers |
| `ShipFile.MsgToCobs` | justin-snapshot/src/socket_msg_help.c:17-41 | the buffer of twice the size holds the frame and the reported length is the frame's |
| `ShipFile.Ship` | server/file_transfer.c:50-67 | writes the frames of the full blocks of the file, in order, each under its identifier, and counts them and their bytes |
| `ShipFile.FullBlocksOfFile` | server/file_transfer.c:54-67 | there are floor(size/blocksize) full blocks and joined they are the file up to the last of them |
| `ShipFile.ShippedFileReceived` | server/file_transfer.c:58-67 | splitting and judging the stream of a shipped file delivers floor(size/blocksize) blocks and their contents joined are that part of the file, if a block fits a message; otherwise it delivers none |
| `Transfer.StreamFitsIff` | client/read_blocks.c:75-76 | the stream of any formed messages meets what the reader relies on exactly if each frame with its delimiter has at most 8192 bytes |
| `Transfer.TransferMessages` | client/read_blocks.c:44-168 | any formed messages with such frames, sent and read on hosts of any byte orders: the reader gets exactly the sendable ones, in order and intact, and counts them |
| `Transfer.TransferFile` | client/read_blocks.c:44-168 | sender and reader on hosts of any byte orders, for every block size under which the frames of the full blocks have at most 8192 bytes: the client counts and gets the full blocks of the file |
| `Transfer.BuiltInBlockSizeFits` | server/hipft.h:5 | every block of the built-in size of 4096 bytes has such a frame |
| `Transfer.BlockFitsIff` | server/file_transfer.c:58-67 | block and identifier fix the frame that has to fit |
| `Transfer.ReadOutput` | client/read_blocks.c:44-168 | the reader on the output of the sending thread, at any time and after any requests, if its frames have at most 8192 bytes: one block for each transmission, with its number and data, and the file once the first pass is over |
| `Transfer.ServeAndRead` | justin-snapshot/src/server_help.c:51-82 | the thread run on any requests and then read: the same, said of the run |
| `Transfer.ShortSegmentsFit` | justin-snapshot/src/cobs.c:211 | segments whose worst-case frame has at most 8192 bytes meet what the reader needs, under any identifiers |
| `Sections.CanonicalUnique` | justin-snapshot/src/section.c:6-139 | a sorted list with gaps is determined by its members |
| `Sections.Section.Add` | justin-snapshot/src/section.c:6-85 | what the search makes of any list; on a sorted list with gaps it adds exactly one member and keeps the form exactly if it does not wrap; the downward merge is never reached, whatever the list |
| `Sections.Section.Delete` | justin-snapshot/src/section.c:86-139 | what the search makes of any list; on a sorted list with gaps it keeps the form and removes exactly one member, splitting, shrinking or dropping its piece |
| `Sections.Section.FirstLow` | justin-snapshot/src/section.c:144-147 | the low bound of the first piece, on a sorted list with gaps the least member; zero if there is none |
| `Sections.Section.LastContinualHigh` | justin-snapshot/src/section.c:140-143 | the high bound of the first piece, on a sorted list with gaps the end of the run that starts at the least member; zero if there is none |
| `Sections.Section.GetPiece` | justin-snapshot/src/section.c:148-151 | on a sorted list with gaps, a longest run of members, and at the start none exactly if there are no members |
| `Sections.AddedIsUnionIff` | justin-snapshot/src/section.c:6-85 | adding to a sorted list with gaps is union exactly if it does not wrap; if it does, the last piece is turned around and neither zero nor the largest number is a member |
| `Sections.DeletedIsDifference` | justin-snapshot/src/section.c:86-139 | deleting from a sorted list with gaps is difference |
| `Sections.DeletedKeepsSpoiled` | justin-snapshot/src/section.c:86-139 | no deletion takes away a last piece that is turned around; the others are deleted from as if it were not there |
| `Sections.WrapsIff` | justin-snapshot/src/section.c:16 | the failing additions, said of the set: zero is added, the largest number is in, and one is missing or everything but zero is in |
| `Sections.NoWrapWithoutMax` | justin-snapshot/src/section.c:16 | without the largest number nothing wraps |
| `Sections.AddZeroAfterMax` | justin-snapshot/src/section.c:16-17 | adding zero after the largest number gives a piece whose bounds are the wrong way round, without members, that deleting the largest number does not remove |
| `Sections.RunOps` | justin-snapshot/src/section.c:6-139 | after any sequence of additions and deletions that never wraps, a new section holds the set they build, in canonical form |
| `Sections.HistoryIrrelevant` | justin-snapshot/src/section.c:6-139 | two histories leave the same piece list exactly when they build the same set |
| `FileHandle.SegmentInFileHandle` | justin-snapshot/src/file_handle.c:152-164 | the bytes read for a segment number, the 32-bit seek included; nothing out of range |
| `FileHandle.SegmentBytes` | justin-snapshot/src/file_handle.c:152-164 | for every file, number and size: min(size, what is left) bytes, taken from the start of the segment modulo 2^32, and none for a number whose start is not in the file |
| `FileHandle.SegmentRange` | justin-snapshot/src/file_handle.c:137-139 | each counted segment starts inside the file and the one after the last would not |
| `FileHandle.SegmentSizes` | justin-snapshot/src/file_handle.c:152-155 | segments are non-empty and all but the last have full size |
| `FileHandle.SegmentsLossless` | justin-snapshot/src/file_handle.c:152-164 | if the last segment starts below 2^32 the segments joined are the file |
| `FileHandle.SegmentsLossy` | justin-snapshot/src/file_handle.c:159 | otherwise there is a file for which they are not |
| `FileHandle.LosslessIff` | justin-snapshot/src/file_handle.c:137-164 | lossless for all files of a length exactly when the last segment starts below 2^32 |
| `SenderRuns.FirstPassOfRun` | justin-snapshot/src/server_help.c:44-82 | in every run, for all requests, after r rounds exactly segments 1..min(r, N+1) were sent, once each and in order; the pass is over exactly after more than N+1 rounds; nothing was re-sent before that |
| `SenderRuns.FinishedPassSentFile` | justin-snapshot/src/server_help.c:71-80 | a finished pass sent the N segments and one empty one, and its data is the file |
| `SenderRuns.RunCarriesSegments` | justin-snapshot/src/server_help.c:63-76 | every transmission of every run carries the segment it names |
| `SenderRuns.RequestsTaken` | justin-snapshot/src/server_help.c:53-58 | in every run each request is taken in, once and in order, also during the first pass |
| `SenderRuns.RoundAfterPass` | justin-snapshot/src/server_help.c:53-69 | after the first pass, on any list, a round that takes a request in also sends one segment again; a round sends none exactly if there was no request and the list was empty |
| `SenderRuns.AnsweredLowestFirst` | justin-snapshot/src/server_help.c:53-69 | on a canonical list and without a wrap that segment is the lowest one asked for, the new request included, and is then no longer in the list |
| `SenderRuns.ResendsOfRun` | justin-snapshot/src/server_help.c:51-82 | in every run as many segments are sent again as there were rounds after the first pass with a request or something left |
| `SenderRuns.RunIsHistory` | justin-snapshot/src/server_help.c:51-82 | with safe requests the whole log is that of a thread without lists and flags: in round k segment k + 1 up to number N + 1, one silent round, then in each round the lowest number asked for and not sent since |
| `SenderRuns.SafeIff` | justin-snapshot/src/server_help.c:53-58 | which requests are safe, said of that log: none for zero while 2^64-1 is waited for and either one is not or everything else is |
| `SenderRuns.ConservedInRun` | justin-snapshot/src/server_help.c:53-69 | in every state of a run with safe requests the retransmission list is canonical and holds exactly the numbers last heard of as taken in, and only such numbers were re-sent |
| `SenderRuns.NoRequestLost` | justin-snapshot/src/server_help.c:53-69 | with safe requests, every request taken in is still in the list or was answered since |
| `SenderRuns.ResendsBounded` | justin-snapshot/src/server_help.c:53-69 | with safe requests, no segment is re-sent more often than it was asked for |
| `SenderRuns.Drains` | justin-snapshot/src/server_help.c:61-69 | without new requests after the first pass a canonical list is emptied lowest number first in as many rounds as it has members, and then nothing happens |
| `SenderRuns.DrainsNoSooner` | justin-snapshot/src/server_help.c:61-69 | and in no fewer |
| `SenderRuns.DrainsIff` | justin-snapshot/src/server_help.c:61-69 | any list whatever is some time empty, without new requests, exactly if no piece has its bounds the wrong way round |
| `SenderRuns.RequestsKeptIffSafe` | justin-snapshot/src/server_help.c:53-69 | in every run: requests are kept in all its states exactly if none of them wraps the list it is added to |
| `SenderRuns.SafeWithoutMax` | justin-snapshot/src/server_help.c:53-58 | requests of which none is for 2^64-1 are safe |
| `SenderRuns.WrapLosesRequest` | justin-snapshot/src/server_help.c:53-58 | a request that wraps is neither in the list nor answered after its own round |
| `SenderRuns.StuckAfterWrap` | justin-snapshot/src/server_help.c:61-69 | a spoiled list is answered down to its last piece, and from then on every round without requests sends the low bound of that piece |
| `SenderRuns.FatalPair` | justin-snapshot/src/server_help.c:53-69 | for every file, requests for 2^64-1 and then 0 are unsafe; the first is answered in each round after the first pass, the second never |
| `SenderRuns.AscendingIsSorted` | justin-snapshot/src/server_help.c:62-67 | the draining order lists each member once, strictly ascending |
| `ServerChannel.Channel.constructor` | justin-snapshot/src/server_help.c:39-46 | a new thread is in the initial state, its send section the run 0..0 |
| `ServerChannel.Channel.Round` | justin-snapshot/src/server_help.c:51-82 | for every request, a round on interval lists, messages and frames is one step of the transition system; the send section stays the single run 0..k, the bytes written stay the frames of what the log records, and all go from this end of the channel to the other |
| `ServerChannel.Channel.Transmit` | justin-snapshot/src/server_help.c:63-66 | one segment is read, formed into a message, framed and written |
| `ServerChannel.Serve` | justin-snapshot/src/server_help.c:51-82 | for all sequences of requests the loop performs their run |
| `ServerChannel.OutputDelivered` | justin-snapshot/src/server_help.c:62-77 | splitting and judging what the thread wrote delivers as many blocks as there were transmissions exactly if all fit a message, and then each with its number and data |
| `ServerChannel.SegmentsPass` | justin-snapshot/src/server_help.c:63-76 | every transmission of a run fits a message if a full segment does |
| `ServerChannel.FileReachesReader` | justin-snapshot/src/server_help.c:51-82 | after a finished first pass, whatever was requested, the first N+1 messages that splitting and judging the output delivers are segments 1..N+1 and their contents are the file |

## Left out

- Sockets, `select`, processes, threads as such, signals, directories, system logs and the CSV log: foreign calls.
- The drivers under justin-snapshot/drv and `recv_msg`: the receiving half is a stub that returns nothing.
- conn_chan.c, `find_existing_channel` and `file_handle_for_file`: tables with linear searches, on which none of the results here depends.
- `handle_busted_msg1`, the text of `handle_cobs_errors`, printing and `print_section`: diagnostics only.
- `validate_message`'s comparison of header and trailer: it compares eight bytes and only logs.
- Overwriting of a request that the main thread posts before the last one was taken: a request is modelled once the thread takes it. Freeing, mutexes and the wait for `ready` have no counterpart.
- A change of SPECIAL_CHAR from 0x00: only the built value is modelled.
- ReadBlocks.ReadBlocks: requires that every accepted frame is shorter than 8192 bytes, because the C code reads uncleared memory for the terminator of a longer one. `bindex` and `blen` are `int` in C; chunks of 2^31 bytes and more, on which they overflow, are not modelled.
- Transfer.TransferMessages: requires frames of at most 8192 bytes, for the same reason.
- Transfer.TransferFile: requires the same of the frames of the full blocks.
- Transfer.ReadOutput: requires the same of the frames the thread wrote.
- Transfer.ServeAndRead: requires the same of the transmissions of the run, under whatever message identifiers, these being random.
- Messages.FormMsg: requires content below 2^31 bytes, where the `int` counters of the parity code stay in range.
- ShipFile.Ship: requires a positive block size below 2^31; the C loop does not end for block size zero. Opening the file and the name checks are not modelled.
- ServerChannel.Channel.constructor: requires a positive segment size, zero being a division by zero in C, a file below 2^63 bytes and segments below 2^31 bytes.
- FileHandle.SegmentInFileHandle: requires a positive segment size and a file below 2^63 bytes, beyond which the 64-bit sums of the C code may wrap.
- Cobs.CobsDecode: requires a buffer that the length bytes do not lead out of; the C code reads foreign memory otherwise.
