# acarsdec core, modelled in Dafny

acarsdec receives ACARS, the character-oriented air-ground datalink of ARINC
Specification 618. Each tuned channel demodulates bits and hands them to a
per-channel receiver. The receiver is a small state machine
(`putbit`/`decodeAcars`). It hunts bit by bit for two SYN characters, takes the
SOH, collects the text up to ETX or ETB, reads the two CRC bytes and queues the
finished block. When a DLE arrives after more than 20 text bytes, the terminator
is taken as missed: src/acars.c:396-398 takes the two bytes before the DLE as
crc[0] and crc[1] and queues the text without them and the DLE, and the model
does the same (`Channels.Channel.MissedEnd`). A worker thread takes blocks from the queue and validates each
one:

- it drops blocks shorter than 13 bytes;
- it forces byte 12 to a start- or end-of-text marker;
- it drops blocks with more than one even-parity byte;
- it computes the CCITT CRC-16 residue;
- it repairs a one-bit error through the `oneerr` syndrome table, or a two-bit
  error within one byte through the `twoerr` table;
- it counts parity again and strips the parity bits.

The worker then reads the message record's fields at their fixed offsets. On the
tuner side, `chooseFc` bubble-sorts the requested channel frequencies and picks a
centre frequency that leaves every channel clear of the centre.

The modules follow the program's structure:

- `Acars` holds the framing constants.
- `Crc` is the bit-serial CRC. `update_crc` is proved equal to a specification on
  bits, and the residue is proved linear, so an error's residue depends only on
  its mask and its distance from the end.
- `Validation` states the whole validation of a block as one function on values
  (`Validate`), with parity, `fixerr` and the repair order.
- `RepairProofs` proves what that repair achieves, given syndrome tables that
  hold what their names say.
- `Messages` holds the field parser, with a round trip against an encoder.
- `Blocks` holds the block buffer and the linked FIFO queue between receivers and
  worker, as classes.
- `Worker` is the worker's in-place processing of one block. Each method is
  proved equal to the corresponding function of `Validation` or `Messages`.
- `Receiver` is the decoder on values, with the proof that a frame sent bit by
  bit is queued exactly once and exactly as sent.
- `Channels` is the channel as a class. Every method is proved to do what
  `Receiver.Next` says.
- `Tuner` models `chooseFc` on an array.

The syndrome tables of `syndrom.h` are parameters (`Tables`). Their contents are
an assumption of the repair theorems (`RepairProofs.SyndromeTables`), not
constants copied into the model. syndrom.h and acarsdec.h are not part of this
model. The sizes used for the block buffer (241 bytes) and for the table lengths
(242·8 and 28·142) come from the loops and bounds in src/acars.c.

## Model

| member | source | states |
|---|---|---|
| Crc.UpdateCrc | src/acars.c:66-81 | Updating the register in place over eight masked rounds gives exactly the CRC-16 division step of the byte's bits, fed least significant first (`FeedByte`) |
| Crc.Round | src/acars.c:74-77 | One round of the loop, done with the saved top bit, `C + 1` and `^ POLY`, is the specification's division step `Shift` for the masked message bit |
| Crc.FeedByte | src/acars.c:66-81 | Definition of the CRC register after one byte: eight `Shift` steps, least significant bit first |
| Crc.Residue | src/acars.c:177-183 | Definition of the residue: the register after every byte in order, starting from zero |
| Crc.FeedByteLinear | src/acars.c:66-81 | `update_crc` is linear: the register of the XOR of two registers and two bytes is the XOR of the two registers |
| Crc.ResidueLinear | src/acars.c:177-183 | The residue of a block is XOR-linear over blocks of equal length |
| Crc.ResidueAppend | src/acars.c:177-183 | Feeding a text and then the CRC bytes is feeding their concatenation |
| Crc.SyndromeNonZero | src/acars.c:186 | A nonzero error pattern never leaves a zero residue, so a corrupted block is never taken as clean |
| Crc.FlipResidue | src/acars.c:177-183 | The residue of a clean block with one byte XORed by a mask depends only on the mask and the byte's distance from the end. This is what the syndrome tables rely on |
| Validation.NumBits | src/acars.c:34-43 | Definition of the `numbits` table: the number of set bits of a byte, at most 8 |
| Validation.EvenCount | src/acars.c:163-169 | Definition of `pn`: the number of bytes of even parity, at most the length |
| Validation.Stripped | src/acars.c:243 | Definition of the stripped text: every byte with bit 7 cleared, length kept |
| Validation.Repair | src/acars.c:186-234 | Definition of the CRC check and repair: the first single-bit match is fixed with `err` 1; otherwise, with no parity error and under 142 bytes, the first two-bit match with `err` 2; otherwise the block is dropped |
| Validation.Validate | src/acars.c:152-249 | Definition of a block's validation: length gate, forced byte 12, parity gate, repair, second parity pass and strip |
| Validation.EvenCountZero | src/acars.c:163-169 | `pn` is zero exactly when every byte has odd parity |
| Validation.FlipBitParity | src/acars.c:34-43 | Flipping one bit of a byte always changes its parity as `numbits` counts it |
| Validation.FlipPairParity | src/acars.c:198 | Flipping two bits of one byte never changes its parity. This is why the two-bit search runs only with no parity error |
| Validation.ForceBlockStart | src/acars.c:159-160 | Byte 12 becomes STX, ETX, 0x03 or 0x82, and an STX or ETX is kept as it is |
| Validation.ForceStart | src/acars.c:159-160 | The forced text differs from the received one in byte 12 at most |
| Validation.FirstMatch | src/acars.c:190-196 | The search gives the first table index holding the residue. It finds none exactly when no entry holds it |
| Validation.PairFrom | src/acars.c:203-204 | Pair indices counted from the loops' start name a higher bit k and a lower bit l < k |
| Validation.PairIndex | src/acars.c:203-204 | The loop variables (k, l) are visited at pair index Tri(k) + l, in the order of the nested loops |
| Validation.PairValid | src/acars.c:203-204 | Each of the 28 pair indices names two distinct bits of one byte |
| Validation.Fix | src/acars.c:83-90 | A successful fix keeps the text's length |
| Validation.FixInBlock | src/acars.c:83-90 | The fix succeeds exactly when the distance is at most 2 or the index `len-1-(sft-2)` lies in the text. It then flips the mask bits of that byte only |
| Validation.FixTouchesOneByte | src/acars.c:89 | A fix changes no byte other than the one at the index the source computes |
| Validation.FixTwice | src/acars.c:83-90 | The same fix applied twice gives the text back |
| Validation.FixUndoesFlip | src/acars.c:89 | A flip of byte p, other than the last, is undone by the fix at distance `len+1-p` |
| Validation.FixIndexBeforeBlock | src/acars.c:89 | As written, a single-bit table entry at a distance beyond `len+1` gives an index before the text |
| Validation.FixIndexShortestBlock | src/acars.c:89 | A 13-byte block with table entry 160 (distance 20) gives index -6 |
| Validation.Accepted | src/acars.c:152-249 | An accepted block has at least 13 bytes, at most one parity error before repair, and only 7-bit bytes after it. `err` is 0 exactly when the residue is clear, 1 only on a single-bit match, and 2 only without one, with no parity error and under 142 bytes |
| Validation.AcceptedAfter | src/acars.c:236-249 | A repaired text without parity errors is accepted with its parity bits stripped |
| Validation.RejectedAfter | src/acars.c:236-249 | A repaired text that still has even-parity bytes is dropped, with their count |
| Validation.RepairedByOne | src/acars.c:186-196 | A nonzero residue at single-bit entry i is fixed at distance i/8 with mask 1<<(i%8), and `err` is 1 |
| Validation.RepairedByTwo | src/acars.c:198-224 | A residue missing from the single-bit table and found at two-bit entry n (no parity error, under 142 bytes) is fixed at distance n%142 with the mask of pair n/142, and `err` is 2 |
| Validation.RejectedShort | src/acars.c:152-156 | A block is dropped as too short exactly when it has fewer than 13 bytes |
| Validation.RejectedParity | src/acars.c:163-174 | The first parity gate drops a block exactly when more than one byte has even parity |
| Validation.RejectedNoMatch | src/acars.c:186-231 | A block is dropped for want of a syndrome exactly when its residue is nonzero, no single-bit entry matches, and the two-bit table is either not tried or has no match |
| RepairProofs.CleanBlockAccepted | src/acars.c:152-249 | A block received as sent is accepted with its parity bits stripped, and `err` is 0 |
| RepairProofs.CorruptedResidue | src/acars.c:177-183 | After a bit error in byte p, the residue is the syndrome of distance `len+1-p` |
| RepairProofs.ForceKeeps | src/acars.c:159-160 | An error outside byte 12 of a sent block leaves the forcing with nothing to do |
| RepairProofs.OneErrFound | src/acars.c:190-196 | With distinct single-bit syndromes, the syndrome of bit k at distance d is found first at entry 8d+k |
| RepairProofs.TwoErrFound | src/acars.c:198-224 | The syndrome of pair q at distance d is found at two-bit entry 142q+d and at no single-bit entry |
| RepairProofs.OneBitParity | src/acars.c:163-169 | One flipped bit in an all-odd text leaves exactly one even-parity byte, which passes the first gate |
| RepairProofs.TwoBitParity | src/acars.c:163-169 | Two flipped bits of one byte leave no even-parity byte |
| RepairProofs.OneErrLookup | src/acars.c:186-196 | A residue equal to a single-bit syndrome is repaired through its entry, with `err` 1 |
| RepairProofs.TwoErrLookup | src/acars.c:198-224 | A residue equal to a two-bit syndrome (under 142 bytes) is repaired through its entry, with `err` 2 |
| RepairProofs.FlipFoundByOne | src/acars.c:186-196 | A bit flipped in byte p of a clean block is looked up at distance `len+1-p` |
| RepairProofs.FlipFoundByTwo | src/acars.c:198-224 | A bit pair flipped in byte p of a clean block is looked up at distance `len+1-p` |
| RepairProofs.SingleBitErrorRepaired | src/acars.c:152-249 | One flipped bit in any text byte except byte 12, the last, and a byte more than 241 bytes from the end (only byte 0 of a 241-byte block), is repaired. The block is accepted as sent, with `err` 1 |
| RepairProofs.Crc1ErrorIgnored | src/acars.c:85-88 | One flipped bit in crc[1] matches distance 0, which `fixerr` leaves alone. The text is accepted as sent, with `err` 1 |
| RepairProofs.Crc0ErrorIgnored | src/acars.c:85-88 | One flipped bit in crc[0] matches distance 1, which `fixerr` leaves alone too. The text is accepted as sent, with `err` 1 |
| RepairProofs.FlipCrc1Residue | src/acars.c:183 | A flip in crc[1] leaves the syndrome of distance 0 |
| RepairProofs.FlipCrc0Residue | src/acars.c:182-183 | A flip in crc[0] leaves the syndrome of distance 1 |
| RepairProofs.LastByteErrorRejected | src/acars.c:85-88 | One flipped bit in the last text byte matches distance 2, which `fixerr` also leaves alone. The error stays, and the second parity pass drops the block |
| RepairProofs.TwoBitErrorRepaired | src/acars.c:152-249 | Two flipped bits of one text byte in a block under 142 bytes are repaired, and the block is accepted as sent, with `err` 2. Three bytes are excluded: byte 12, which the forcing may rewrite; the last byte, which `fixerr` leaves unfixed (`LastBytePairAccepted`); and byte 0 of a 141-byte block, whose distance 142 is beyond the two-bit table |
| RepairProofs.LastBytePairAccepted | src/acars.c:85-88 | Two flipped bits of the last text byte match the two-bit entry of distance 2, which `fixerr` leaves alone. The parity stays odd, so the block is accepted with `err` 2 and the corrupted byte, which strips to a different value from the byte sent |
| RepairProofs.PairStrips | src/acars.c:243 | Stripping bit 7 never hides a two-bit error: the flipped byte strips to a different value |
| Messages.LabelChar | src/acars.c:272-273 | A second label byte of 0x7f is read as 'd'; any other byte is kept, so the result is never 0x7f |
| Messages.Parse | src/acars.c:252-298 | Definition of the record read from a validated text: the header at fixed offsets; for longer blocks the number, block end byte, flight id and text |
| Messages.UntilNul | src/acars.c:296-297 | `strcpy` copies the longest NUL-free prefix, stopping at the first NUL |
| Messages.Take | src/acars.c:285-294 | A copy loop bounded by n and by the end takes a prefix of at most n bytes. It takes everything when it stops early |
| Messages.ParseWellFormed | src/acars.c:252-298 | Every parsed record is well formed. It has a message number exactly when the block is longer than 13 bytes, and its text fits what remains |
| Messages.ParseEncode | src/acars.c:252-298 | Parsing the encoding of a well-formed record gives the record back |
| Messages.EncodeParse | src/acars.c:252-298 | Encoding a parsed record gives back the block text, when the label byte is not 0x7f and no NUL cuts the text short |
| Messages.HeaderParsed | src/acars.c:257-281 | The fixed fields sit at offsets 0, 1-7, 8, 9-10, 11 and 12 |
| Messages.BodyParsed | src/acars.c:283-298 | A well-formed record's number, flight id and text are split back out of its body |
| Messages.PartsParsed | src/acars.c:252-298 | A text whose header, body and last byte are a record's parses to that record |
| Messages.BodyOfParse | src/acars.c:283-298 | The parsed fields, put back together, are exactly the bytes between the header and the last byte |
| Messages.TextFits | src/acars.c:55 | A block of at most 241 bytes leaves a text that fits the record's 220-byte buffer, NUL included |
| Messages.ParsedLong | src/acars.c:283-298 | A record read field by field from a block longer than 13 bytes is its parse |
| Messages.ParsedShort | src/acars.c:252-282 | A record read from a 13-byte block, with its other fields unset, is its parse |
| Blocks.MsgBlk.constructor | src/acars.c:428-429 | A fresh block of 241 bytes carries its channel number |
| Blocks.BlockQueue.constructor | src/acars.c:61-62 | The queue starts empty |
| Blocks.BlockQueue.Enqueue | src/acars.c:420-426 | The block becomes the newest in the queue, and the queue stays a well-linked list without repeated blocks |
| Blocks.BlockQueue.Dequeue | src/acars.c:142-148 | The oldest block leaves the queue, which keeps its order. An empty queue yields none |
| Receiver.Next | src/acars.c:337-439 | One decoder step waits for 1 or 8 bits. A byte that breaks SYN SYN SOH returns to the bit-by-bit hunt, and an inverted SYN flips bit 1 of `MskS`. A block is queued exactly after the second CRC byte, or at a DLE once more than 20 bytes are in, always leaving END. A text never exceeds the 241-byte buffer |
| Receiver.BitStep | src/acars.c:327-335 | Definition of `putbit` on values: shift the bit in, count down, and decode when the count runs out |
| Receiver.BitDecodes | src/acars.c:327-335 | The bit that runs the count out is shifted in and then decoded |
| Receiver.BitShifts | src/acars.c:327-335 | Any other bit is only shifted in |
| Receiver.EightBits | src/acars.c:329-333 | A byte's bits, sent least significant first, leave the byte in the shift register whatever it held |
| Receiver.QuietBits | src/acars.c:327-335 | Fewer bits than awaited only shift and count down, and queue nothing |
| Receiver.RunAppend | src/acars.c:337-439 | Decoding bytes composes: states carry over and queued blocks concatenate |
| Receiver.AlignedAppend | src/acars.c:337-439 | A byte run stays byte-aligned exactly when both of its parts do |
| Receiver.RunBitsAppend | src/acars.c:327-335 | Receiving bits composes in the same way |
| Receiver.TextStep | src/acars.c:386-409 | A text byte that neither ends nor overflows the text is appended, and nothing is queued |
| Receiver.TextRun | src/acars.c:386-409 | A run of such bytes is appended as a whole, and nothing is queued |
| Receiver.HeadRun | src/acars.c:343-384 | SYN SYN SOH leads from the hunt to an empty text stamped with the time of SOH |
| Receiver.TailRun | src/acars.c:389-433 | The terminator and the two CRC bytes queue the block with its text, CRC, time and level, and leave END |
| Receiver.FrameReceived | src/acars.c:337-439 | A block sent as SYN SYN SOH, text and CRC, decoded byte by byte from the hunt, is queued exactly once, as sent |
| Receiver.ByteInBits | src/acars.c:327-335 | With 8 bits awaited, the bits of a byte decode that byte once |
| Receiver.BitsAsBytes | src/acars.c:327-335 | While the decoder stays byte-aligned, a serialized byte run decodes as those bytes |
| Receiver.FrameReceivedBits | src/acars.c:327-439 | A block sent as a bit stream, starting in the hunt, is queued exactly once, as sent, and the decoder ends in END |
| Channels.Channel.constructor | src/acars.c:310-324 | The channel starts with an empty register, awaits 8 bits in WSYN, and has a fresh block, with a fresh text buffer, for its channel |
| Channels.Channel.PutBit | src/acars.c:327-335 | In place, the channel and queue change as `Receiver.BitStep` says. A queued block becomes the newest, and a fresh block replaces it. The buffer being filled stays apart from every queued block's (`OwnsText`), and the texts of blocks already queued are unchanged |
| Channels.Channel.ShiftBit | src/acars.c:329-333 | The bit enters at 0x80 and the count goes down. Nothing else changes |
| Channels.Channel.DecodeAcars | src/acars.c:337-439 | In place, the channel and queue change as `Receiver.Next` says, and a queued block is replaced by a fresh one. The buffer stays apart from the queued blocks' buffers, and their texts are unchanged |
| Channels.Channel.FirstSyn | src/acars.c:343-356 | The WSYN case does in place what `Next` says, and queues nothing |
| Channels.Channel.SecondSyn | src/acars.c:358-371 | The SYN2 case does in place what `Next` says |
| Channels.Channel.Heading | src/acars.c:373-384 | The SOH1 case starts an empty, time-stamped text as `Next` says |
| Channels.Channel.Collect | src/acars.c:386-409 | The TXT case does in place what `Next` says, including the missed-end queueing. The byte is written into the channel's own buffer, so the texts of queued blocks are unchanged |
| Channels.Channel.Store | src/acars.c:387-388 | The byte is appended to the block's text |
| Channels.Channel.TextEnd | src/acars.c:389-393 | ETX or ETB moves to CRC1 as `Next` says |
| Channels.Channel.MissedEnd | src/acars.c:394-401 | A DLE after 20 bytes queues the text without its last three bytes, two of which are the CRC |
| Channels.Channel.TextMore | src/acars.c:402-409 | Any other byte continues the text, or drops it past 240 bytes |
| Channels.Channel.FirstCrc | src/acars.c:411-415 | CRC1 stores crc[0] as `Next` says |
| Channels.Channel.SecondCrc | src/acars.c:416-418 | CRC2 completes the block with crc[1] and the level, and queues it |
| Channels.Channel.Emit | src/acars.c:419-433 | The block holding the frame becomes the newest in the queue. A fresh block with a fresh buffer takes its place, so no queued block shares the channel's buffer. The decoder waits in END |
| Channels.Channel.Restart | src/acars.c:434-437 | END returns to WSYN, awaiting 8 bits |
| Worker.ForceByte12 | src/acars.c:159-160 | Byte 12 is forced in place, and the text becomes `ForceStart` of the old one |
| Worker.CountParityErrors | src/acars.c:163-169 | `pn` is the number of even-parity bytes |
| Worker.ComputeResidue | src/acars.c:176-183 | The register is the residue of the text, then crc[0], then crc[1] |
| Worker.FindOneErr | src/acars.c:190-196 | The loop finds the first single-bit entry holding the residue |
| Worker.SearchSpan | src/acars.c:205-220 | One pair's span of 142 distances gives the first matching distance, or none in the span |
| Worker.SearchHigh | src/acars.c:204-223 | The pairs with higher bit k, in loop order, give the first match overall, with distance n%142 and mask `u|v` |
| Worker.FindTwoErr | src/acars.c:198-224 | The two-bit search gives the first matching entry, its distance and its pair mask |
| Worker.FixErr | src/acars.c:83-90 | The in-place fix does what `Fix` says and leaves the buffer unchanged on failure |
| Worker.StripParity | src/acars.c:236-244 | The second pass counts even-parity bytes and leaves the text stripped. Bytes past the text are untouched |
| Worker.FixSingle | src/acars.c:190-196 | The single-bit fix of entry i leaves the text and `err` 1 that `Validation.Repair` gives |
| Worker.FixDouble | src/acars.c:198-224 | The two-bit search and fix give `err` 2 and the specified text, or no match |
| Worker.RepairResidue | src/acars.c:186-234 | In place, the repair of a nonzero residue is `Repair` |
| Worker.RepairPair | src/acars.c:198-234 | In place, the two-bit stage is `Repair` when the single-bit table has no match |
| Worker.RepairBlock | src/acars.c:176-234 | In place, the CRC check and repair is `Repair` |
| Worker.CheckBlock | src/acars.c:152-249 | In place, validating one block is `Validate`: the buffer holds the stripped text, the result is `err`, or the block is dropped for the same reason |
| Worker.ReadHeader | src/acars.c:257-281 | The fixed fields are read at their offsets, with the 0x7f label rule |
| Worker.CopyField | src/acars.c:285-294 | A bounded copy loop takes at most n bytes, stopping before the last byte |
| Worker.CopyText | src/acars.c:296-297 | `strcpy` copies up to the first NUL, the overwritten last byte at the latest |
| Worker.ReadBody | src/acars.c:283-298 | The message number, block end byte, flight id and text are those of `Parse` |
| Worker.FillMessage | src/acars.c:252-298 | The record filled in place is `Parse` of the validated text |
| Worker.ProcessBlock | src/acars.c:152-298 | One worker iteration on a block gives `Decode`: the record, or the reason for the drop |
| Worker.Decode | src/acars.c:152-298 | Definition of what the worker makes of a block: `Parse` of the validated text with its `err` and the block's level, or the reason for the drop |
| Worker.DecodeClean | src/acars.c:152-298 | A block received as sent decodes to the record of its stripped text, with `err` 0 |
| Worker.DecodeSingleBitError | src/acars.c:152-298 | A block with one flipped bit, not in byte 12 nor the last byte and within the single-bit table's distances (all but byte 0 of a 241-byte block), decodes to the record as sent, with `err` 1 |
| Worker.DecodeTwoBitError | src/acars.c:152-298 | A block under 142 bytes with two flipped bits of one byte decodes to the record as sent, with `err` 2. Byte 12, the last byte and byte 0 of a 141-byte block are excluded, as for `RepairProofs.TwoBitErrorRepaired` |
| Worker.DecodedWellFormed | src/acars.c:152-298 | Every decoded record is well formed, has `err` at most 2 and the block's level, and re-encodes within the block's length |
| Tuner.ChooseFc | src/rtl.c:41-70 | The first `nbch` frequencies end sorted, as a permutation of the input, with the rest untouched. The result is `Centre` of the sorted channels |
| Tuner.SortChannels | src/rtl.c:46-55 | Passes repeat until one exchanges nothing, leaving the channels sorted and permuted |
| Tuner.Pass | src/rtl.c:47-54 | A pass moves the highest unsettled frequency into place and keeps the multiset. It exchanges something only if the input was unsorted, and leaves sorted input when it exchanges nothing |
| Tuner.OrderPair | src/rtl.c:49-53 | A pair out of order is swapped, and the result reports whether it was |
| Tuner.BubbledInv | src/rtl.c:48-54 | Every prefix of a pass keeps the pass invariant |
| Tuner.PassEnds | src/rtl.c:46-55 | The end of a pass gives what a pass promises |
| Tuner.PickCentre | src/rtl.c:57-69 | The choice on sorted channels is `Centre` |
| Tuner.Centre | src/rtl.c:57-69 | Definition of the centre choice on sorted channels: 0 beyond MDF, two RTLRATE below a single channel, the middle pair's midpoint when it has a gap, else the scan |
| Tuner.FirstGap | src/rtl.c:67-69 | Definition of the scan: the midpoint of the first pair from n on with a gap, else RTLRATE below the lowest channel |
| Tuner.ScanGaps | src/rtl.c:67-69 | The scan is `FirstGap` from index 1 |
| Tuner.FirstGapLeast | src/rtl.c:67-69 | The scan returns the midpoint of the first pair with a gap, or RTLRATE below the lowest channel when there is none |
| Tuner.FirstGapFound | src/rtl.c:67-69 | The scan returns the fallback or the midpoint of some pair with a gap |
| Tuner.MidClear | src/rtl.c:65-68 | The midpoint of a pair with a gap is clear of every channel of a set no wider than MDF |
| Tuner.BelowClear | src/rtl.c:69 | RTLRATE below the lowest channel is clear of a set no wider than MDF |
| Tuner.CentreClear | src/rtl.c:40-69 | Away from the ends of the unsigned range, the centre is 0 exactly when the channels span more than MDF. Otherwise every channel is at least RTLRATE from the centre and within half the tuner's rate |

## Left out

- Threads, the mutex and the condition variable of the block queue are not modelled. Receivers and the worker run one step at a time against one `BlockQueue`.
- Blocks.BlockQueue.Dequeue: on an empty queue it returns null where the worker would wait on the condition variable.
- The printers (`printmsg`, `printoneline`, `printtime`), the `outtype` choice and the verbose diagnostics are left out. They only print.
- `free` is not modelled. `malloc`'s uninitialised fields are left unconstrained by `Blocks.MsgBlk.constructor`.
- The clock and the signal level are parameters. `now` stands for `time(NULL)`, or 0 when the input mode is 2. `lvl` stands for the `20*log10(Mskdc)+106` the receiver computes at the second CRC byte; the floating-point computation itself is out of scope.
- Receiver.Next: on the DLE path the block keeps whatever level it already holds, as in the source, which sets the level only at CRC2.
- Worker.ProcessBlock: the record's level is the block's level as an integer. The conversion to the record's `unsigned char` is not modelled, because the block's type is in acarsdec.h, which is not part of this model.
- The `numbits` table is modelled as the bit count it tabulates (`Validation.NumBits`), not as a copied literal.
- The syndrome tables of syndrom.h are parameters. The repair theorems assume only their meaning (`RepairProofs.SyndromeTables`) and their distinctness.
- `MskS` is modelled as a 32-bit value, and the decoder flips its bit 1. The demodulator that reads it is not part of this model.
- Worker.SearchHigh: the source keeps the lower bit's mask in `u`, shifted once per pair. The model reads the same mask from a table (`BitMasks[l]`). The search also treats distance 0 as the first step of one loop over 0..141, which visits the same entries in the same order.
- Tuner.ChooseFc requires at least one channel. With none, `nbch-1` wraps around and the sort reads outside the array, so the source's `case 0` is unreachable in the model.
- Tuner.CentreClear assumes channels away from 0 and 2^32 (`Unwrapped`). Near those ends the unsigned sums and differences in src/rtl.c wrap, and the centre is not claimed to be clear.
- The rest of src/rtl.c (device setup, `initRtl`, sample conversion and the RTL-SDR reader loop) and the demodulator that calls `putbit` are out of scope.
- Validation.Fix keeps the source's `sft <= 2` rule: distance 2, the last text byte, is treated as a CRC error and left unfixed. `RepairProofs.LastByteErrorRejected` shows the consequence for one flipped bit: such a block is dropped by the second parity pass even though `err` was set. `RepairProofs.LastBytePairAccepted` shows it for two flipped bits: the parity stays odd, so the block is accepted with `err` 2 and a corrupted last byte. For an ETX received as ETB (bits 2 and 4 flipped), the record's block end is then wrong.

## Findings

| source | as written | input that shows it | evidently intended | confidence | as-written member | corrected member |
|---|---|---|---|---|---|---|
| src/acars.c:89 | `fixerr` writes `txt[len-1-(sft-2)]` with no bounds check, and the single-bit search offers distances up to 241 for any block length | a 13-byte block whose residue equals single-bit entry 160 (distance 20) writes `txt[-6]`, outside the buffer | a distance that points before the text should not be fixed; the block should be rejected | not executed | Validation.FixIndexBeforeBlock | Validation.FixInBlock |
