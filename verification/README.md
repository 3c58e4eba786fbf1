# A verified model of cantools-rs

cantools-rs is a CAN bus toolkit. This project models its protocol and codec core in Dafny and
proves what the code guarantees, for all inputs:

- **ISO-TP** (`IsoTp`, `Channel`, `ReorderingChannel`, `OrderedChannel`, `LostFirstFrames`,
  `Wire`): the segmentation loop, the `Reassembler` as a class with a ghost history, and runs of it
  over channels that lose, repeat, reorder, interleave and pad. The sequence number has four bits and the reassembler keeps
  its state after an error, so it does accept a wrong frame after a loss of 16. The theorems say
  exactly when that can reach the caller: under reordering, and when first frames are lost.
- **DBC decoding** (`SignalBits`, `Signals`, `DbcDecoder`, `DecoderProperties`): the bit loops of
  both byte orders against div and mod on the payload read as one integer, the one-bit bounds guard,
  two's complement, the independence of signals, and `decode_frame`.
- **MF4** (`Mf4Record`, `Mf4File`, `Mf4Reader`): the 116-byte record, the chain of blocks whose
  addresses are computed before anything is written, reading back through the links, and reading
  files with other groups, blocks and records.
- **ASC** (`Lexical`, `Asc`, `AscTimes`, `AscRoundTrip`, `AscReader`): the text log, down to lines,
  tokens, digits and white space, with the rounding of its floating-point times, and lines that
  other programs wrote.
- **J1939** (`J1939`): the identifier fields, and address arbitration between any number of nodes.

`Core` holds the shared capture model, `Bits` the machine arithmetic (shifts, masks, casts to
`i64`) on natural numbers, `Binary64` the rounding of `f64`, and `Wrappers` the usual option and
result types.

`dafny verify dfyconfig.toml` checks everything.

## What the code does not do

Where a property that one would expect is false, the code is modelled as it is and the exact
condition is proved:

- `docs/ARCHITECTURE.md:28-31` says that a codec records a note instead of silently dropping any
  part of an event. `Mf4File.FileNotedUnlessSilent` and `AscRoundTrip.NotedUnlessSilent` list, part
  by part, the losses that go without a note of their own, whatever other notes there are:
  - MF4: an absent interface index (it reads back as 0), a name of at most 32 bytes that is empty
    or holds a NUL, times that do not fit, FD data beyond 64 bytes (it is cut), and classic data
    beyond 8 bytes, which makes the whole file unreadable (`Mf4File.FileRoundTripIff`).
  - ASC, except for error frames: times (below), FD flags, the data and FD mark of remote frames, an
    absent name (it reads back as `can0`), a name that is not one word, such as `my can`, and a
    frame longer than its format allows.
- ASC times are computed in binary64 and printed with six decimals. Up to 2^22 seconds from the
  epoch exactly the whole microseconds come back, before the epoch only whole seconds
  (`AscTimes.ShortTimeReturnsIff`). From July 2006 to January 2038 a time comes back only if it is
  a multiple of 256 ns, and a whole microsecond exactly then, which is one in 32
  (`AscTimes.RecentTimeReturnsIff`; `AscTimes.RecentTimeExactIff` for all times of those years).
  `cantools-socketcan/src/lib.rs:452` stamps frames with the system clock, so this is what a
  capture loses.
- `segment` never ends for capacities below 2 unless the payload is empty
  (`IsoTp.SegmentTerminatesIff`).
- `encode` cuts lengths to their field without an error, so payloads above 4095 bytes, and single
  frames above 15 bytes at large capacities, do not survive the wire (`Wire.WireTransferIff`).
- A transfer of 17 or more consecutive frames can be reassembled wrongly when frames are reordered
  (`ReorderingChannel.ReorderingSafeIff`).
- Transfers in order can be spliced when one breaks and the first frames of those right behind it
  are lost. For one such transfer this happens exactly when some frame of it has the number of the
  last frame of the broken one and is long enough (`OrderedChannel.LostFirstFrameIff`). For any
  number of them it happens exactly when frames in order and numbered without a gap carry enough
  bytes together (`LostFirstFrames.LostFirstFramesIff`), which can be so although none of them can
  be spliced with the broken one alone (`LostFirstFrames.PairsDoNotDecide`).
- A longer payload can take decoded values away, exactly when a multiplexor switch becomes readable
  that signals already decoded depend on (`DecoderProperties.GrowthKeepsIffStable`).
- Without a readable switch one frame can yield signals for two selector values
  (`DecoderProperties.TwoSelectorsIff`).

## Model

| member | source | states |
|---|---|---|
| IsoTp.Segment | crates/cantools-isotp/src/lib.rs:139-167 | the loop yields the segmentation given in closed form: unit `i` holds the bytes between two computed offsets |
| IsoTp.NextSequence | crates/cantools-isotp/src/lib.rs:163 | masking with 0x0f is counting modulo 16 |
| IsoTp.SegmentTerminatesIff | crates/cantools-isotp/src/lib.rs:144-164 | the loop reaches the end of the payload if and only if the capacity is at least 2 or there is nothing to send |
| IsoTp.CountIsCeiling | crates/cantools-isotp/src/lib.rs:154-164 | the number of consecutive frames is ceil((len - (c - 2)) / (c - 1)) |
| IsoTp.CountIsLeast | crates/cantools-isotp/src/lib.rs:154-164 | one consecutive frame fewer would not carry the payload |
| IsoTp.UnitShape | crates/cantools-isotp/src/lib.rs:154-164 | consecutive frame `i` carries `i` mod 16, all but the last are full, the last is not empty |
| IsoTp.SegmentationShape | crates/cantools-isotp/src/lib.rs:139-167 | the first frame announces the length and all payload bytes together are the input |
| IsoTp.Reassembler.constructor | crates/cantools-isotp/src/lib.rs:170-175 | a new reassembler is idle and valid |
| IsoTp.Reassembler.Ingest | crates/cantools-isotp/src/lib.rs:179-209 | keeps the history invariant (buffer shorter than the total, next number at most 15, buffer made of the accepted frames); a consecutive frame is rejected exactly without a transfer or with another number than the next, by the error that says so, and changes nothing; a payload is handed out exactly when the frames of the transfer have its declared number of bytes |
| IsoTp.Reassembler.Take | crates/cantools-isotp/src/lib.rs:211-221 | hands out the first `total` bytes exactly when there are that many, and ends the transfer |
| Channel.DeliveredHasHistory | crates/cantools-isotp/src/lib.rs:179-221 | over any stream, a multi-frame payload is the declared number of bytes of the latest first frame and the consecutive frames numbered 1, 2, ... mod 16 accepted since, each the first one with the number that was due |
| Channel.StepReportsIff | crates/cantools-isotp/src/lib.rs:193-206 | during a transfer exactly the consecutive frames with another number than the next are answered by an error, which names both numbers |
| Channel.RunCompletes | crates/cantools-isotp/src/lib.rs:179-221 | from any state, a transfer that its last frame completes is delivered exactly once |
| Channel.RunTransfer | crates/cantools-isotp/src/lib.rs:179-221 | from any state, an unfinished transfer delivers nothing and is what the reassembler holds |
| Channel.RunIdle | crates/cantools-isotp/src/lib.rs:193-196 | without an active transfer consecutive frames neither change the state nor deliver |
| ReorderingChannel.ReorderingSafe | crates/cantools-isotp/src/lib.rs:179-221 | with at most 16 consecutive frames, however they are dropped, duplicated or reordered, every delivered payload is the original |
| ReorderingChannel.ReorderingUnsafe | crates/cantools-isotp/src/lib.rs:179-221 | from 17 on, for every length and capacity, some payload and some stream of its own units deliver other bytes |
| ReorderingChannel.ReorderingSafeIff | crates/cantools-isotp/src/lib.rs:155-221 | safety under reordering holds exactly for lengths of at most 16 consecutive frames |
| OrderedChannel.TransferDelivers | crates/cantools-isotp/src/lib.rs:179-221 | in order, with any losses after the first unit and any immediate repeats, a transfer of any length delivers its payload once if nothing was lost and nothing otherwise |
| OrderedChannel.TransferDeliversFromIdle | crates/cantools-isotp/src/lib.rs:179-221 | from an idle state the same holds when the first unit may be lost too |
| OrderedChannel.SessionDelivers | crates/cantools-isotp/src/lib.rs:179-221 | any number of such transfers back to back, from any state, deliver exactly the payloads that arrived whole, in order; a first unit may be lost too directly behind a whole transfer or a broken one that it cannot be spliced with |
| OrderedChannel.LossReportedIff | crates/cantools-isotp/src/lib.rs:196-201 | the first unit behind a loss is reported, with the number that was due and its own, if and only if the number of lost units is no multiple of 16 |
| OrderedChannel.ForeignInvisible | crates/cantools-isotp/src/lib.rs:181-208 | foreign single frames and flow control in between change no state and no delivery of the session, and are delivered themselves |
| OrderedChannel.SessionIsExact | crates/cantools-isotp/src/lib.rs:139-221 | sessions with losses, repeats, padding and foreign frames interleaved deliver exactly the whole payloads and the foreign ones |
| OrderedChannel.BackToBack | crates/cantools-isotp/src/lib.rs:139-221 | complete transfers padded with any bytes and interleaved with foreign frames deliver the list of payloads in order |
| OrderedChannel.WholeIsSegmentation | crates/cantools-isotp/src/lib.rs:139-167 | what the channel sends of a whole unpadded transfer is what segmentation returns |
| OrderedChannel.SpliceDelivers | crates/cantools-isotp/src/lib.rs:193-221 | all units of a transfer but the last, then a unit of another one with the same number that is long enough, are handed out as a mixture of the two payloads |
| OrderedChannel.LostFirstFrameIff | crates/cantools-isotp/src/lib.rs:193-221 | for two lengths, a capacity and a padding: behind a transfer that lost something, one without its first unit never completes anything, whatever the payloads, losses and repeats, if and only if no unit of the second has the number of the last unit of the first and enough bytes |
| LostFirstFrames.LostFirstFramesIff | crates/cantools-isotp/src/lib.rs:193-221 | for any list of lengths and paddings: behind a transfer that lost something, any number of transfers without their first units never complete anything, whatever the payloads, losses and repeats, if and only if no choice of units in order, numbered without a gap modulo 16, carries the bytes of the first payload |
| LostFirstFrames.PairsDoNotDecide | crates/cantools-isotp/src/lib.rs:193-221 | three transfers that complete together although neither of the later two can be spliced with the first |
| LostFirstFrames.GroupsDeliver | crates/cantools-isotp/src/lib.rs:179-221 | sessions of any length in which no such choice exists deliver exactly the payloads that arrived whole, in order, however many first units are lost |
| Wire.Encode | crates/cantools-isotp/src/lib.rs:94-135 | the masks and disjunctions give the fields cut to their widths, and only oversized single frames fail |
| Wire.DecodeEncodedIff | crates/cantools-isotp/src/lib.rs:94-135 | reading the layout of ISO 15765-2 section 9.6 back gives the same unit if and only if its fields fit |
| Wire.CutFields | crates/cantools-isotp/src/lib.rs:101-119 | fields that do not fit are cut: announced lengths modulo 4096, numbers modulo 16, the first byte of a single frame modulo 256 |
| Wire.FlowControlBytes | crates/cantools-isotp/src/lib.rs:120-132 | the bytes of flow control for each status |
| Wire.SegmentEncodesWithin | crates/cantools-isotp/src/lib.rs:94-167 | every unit of a segmentation encodes, within the capacity it was cut for |
| Wire.SegmentSurvivesIff | crates/cantools-isotp/src/lib.rs:94-167 | all units survive encoding if and only if the announced length fits its field |
| Wire.SegmentDelivers | crates/cantools-isotp/src/lib.rs:139-221 | ingesting a segmentation delivers the payload from any state |
| Wire.WireTransferIff | crates/cantools-isotp/src/lib.rs:94-221 | segment, encode, read back and ingest is the identity exactly for lengths that fit: up to 15 in a single frame, up to 4095 otherwise |
| SignalBits.BitAt | crates/cantools-dbc/src/lib.rs:288-290 | shifting and masking picks bit `bit % 8` of byte `bit / 8` |
| SignalBits.LittleBit | crates/cantools-dbc/src/lib.rs:288-290 | payload bits are the bits of the little-endian integer |
| SignalBits.BigBit | crates/cantools-dbc/src/lib.rs:288-290 | payload bits are the bits of the big-endian integer, mirrored within bytes |
| SignalBits.WalkIsUnitStep | crates/cantools-dbc/src/lib.rs:305-309 | the +15/-1 step is one step in reading order |
| SignalBits.WalkClosedForm | crates/cantools-dbc/src/lib.rs:305-309 | where the walk is after any number of steps |
| SignalBits.ExtractLittleEndian | crates/cantools-dbc/src/lib.rs:292-298 | the loop computes (integer / 2^start) mod 2^length |
| SignalBits.ExtractBigEndian | crates/cantools-dbc/src/lib.rs:300-312 | the loop computes (integer / 2^(8n - lin(start) - length)) mod 2^length |
| SignalBits.ByteOrderDuality | crates/cantools-dbc/src/lib.rs:292-312 | a big-endian field is the little-endian field of the reversed payload at the mirrored position |
| SignalBits.SignExtendIsTwosComplement | crates/cantools-dbc/src/lib.rs:314-317 | for every width from 1 to 64 the shifts read two's complement, in range and congruent |
| Signals.MaxSignalBit | crates/cantools-dbc/src/lib.rs:269-286 | the loop ends at the last bit that extraction reads |
| Signals.GuardIsExact | crates/cantools-dbc/src/lib.rs:251-290 | the guard fires if and only if some bit to be read lies beyond the payload, or an empty signal starts beyond it |
| Signals.ExtractRaw | crates/cantools-dbc/src/lib.rs:251-267 | the field of the payload integer, or the number of bits needed and bytes present |
| Signals.RawBit | crates/cantools-dbc/src/lib.rs:251-312 | which payload bit is bit `j` of the value |
| Signals.PositionsDistinct | crates/cantools-dbc/src/lib.rs:292-312 | the walk visits distinct bits |
| Signals.DependsOnPositions | crates/cantools-dbc/src/lib.rs:292-312 | the value depends on the bits of the signal and on nothing else |
| Signals.DisjointRealisable | crates/cantools-dbc/src/lib.rs:251-312 | signals that share no bit can take any in-range values at once |
| Signals.IndependentIff | crates/cantools-dbc/src/lib.rs:251-312 | every combination of values is realisable if and only if no two signals share a bit |
| DbcDecoder.MessageIdInjective | crates/cantools-dbc/src/lib.rs:319-325 | or-ing in bit 31 adds it, and standard and extended identifiers never collide |
| DbcDecoder.FindMessage | crates/cantools-dbc/src/lib.rs:124-129 | a found message has the identifier, and none is found only if none has it |
| DbcDecoder.ExtractSignal | crates/cantools-dbc/src/lib.rs:215-249 | the decoded signal of the value, scaled with rounding after each operation, or the diagnostic |
| DbcDecoder.Decoder.constructor | crates/cantools-dbc/src/lib.rs:95-97 | a new decoder has no databases |
| DbcDecoder.Decoder.Push | crates/cantools-dbc/src/lib.rs:100-106 | databases are kept in the order they were added |
| DbcDecoder.Decoder.ReadMultiplexor | crates/cantools-dbc/src/lib.rs:157-163 | the switch value, absent when there is no switch or it does not fit |
| DbcDecoder.Decoder.DecodeMatched | crates/cantools-dbc/src/lib.rs:154-191 | the loop sorts the active signals into those that fit and those that do not |
| DbcDecoder.Decoder.DecodeFrame | crates/cantools-dbc/src/lib.rs:121-192 | the outcome for the databases that hold the identifier |
| DecoderProperties.FindsFirst | crates/cantools-dbc/src/lib.rs:124-129 | of several messages with one identifier the first is taken |
| DecoderProperties.DescribesFirst | crates/cantools-dbc/src/lib.rs:228-236 | of several table entries for one value the text of the first is taken |
| DecoderProperties.DecodedIffUnique | crates/cantools-dbc/src/lib.rs:121-152 | a frame is decoded if and only if exactly one database holds its identifier, under the names of that database and message, and is otherwise answered by one diagnostic: that none does, or the names of those that do |
| DecoderProperties.SignalAnsweredIff | crates/cantools-dbc/src/lib.rs:154-213 | under the name of each signal of the message there is a value if and only if its multiplex indicator admits it for the payload and it fits, and a diagnostic if and only if it is admitted and does not fit |
| DecoderProperties.ValueSays | crates/cantools-dbc/src/lib.rs:215-249 | the integer, unit and enumeration text of such a value |
| DecoderProperties.ShortfallSays | crates/cantools-dbc/src/lib.rs:251-262 | what a diagnostic reports; its number of bits is enough for another payload if and only if the signal fits it |
| DecoderProperties.DecodeConserves | crates/cantools-dbc/src/lib.rs:165-191 | every active signal yields exactly one value or one diagnostic, in source order |
| DecoderProperties.OneSelectorPerFrame | crates/cantools-dbc/src/lib.rs:204-213 | with a readable switch one frame yields switched signals for one selector value only, and without one no purely switched signal |
| DecoderProperties.TwoSelectorsIff | crates/cantools-dbc/src/lib.rs:204-213 | one frame yields switched signals for two selector values if and only if the switch is absent or unreadable and two signals that are both switch and switched fit with different selectors |
| DecoderProperties.DecodedValueExact | crates/cantools-dbc/src/lib.rs:221-226 | the reported integer in terms of the payload integer, signed and unsigned, up to 64 bits |
| DecoderProperties.WholeScaleExact | crates/cantools-dbc/src/lib.rs:227 | with whole factor and offset the scaled value is exact while every step stays within 53 bits |
| DecoderProperties.ScaledNear | crates/cantools-dbc/src/lib.rs:227 | for any factor and offset the scaled value is the exact one up to the rounding of 53 bits |
| DecoderProperties.StableKeeps | crates/cantools-dbc/src/lib.rs:154-213 | appending bytes, up to a given length in all, keeps every decoded value when the caller-checkable condition holds |
| DecoderProperties.DiagnosticsShrink | crates/cantools-dbc/src/lib.rs:154-213 | with a readable or absent switch, appending bytes only turns diagnostics into values |
| DecoderProperties.ReadableSignalLost | crates/cantools-dbc/src/lib.rs:157-213 | otherwise the least bytes that make the switch readable can make a decoded value disappear |
| DecoderProperties.GrowthKeepsIffStable | crates/cantools-dbc/src/lib.rs:154-213 | for every limit on the payload, such as the 8 or 64 bytes of a frame, appending any bytes within it keeps every decoded value if and only if that condition holds |
| Mf4Record.TimeRoundTripIff | crates/cantools-codec/src/mf4.rs:37-46 | a time comes back exactly when it is not negative, normalised and fits 64 bits of nanoseconds |
| Mf4Record.TimeWritten | crates/cantools-codec/src/mf4.rs:37-39 | what is written for any time: whole seconds before the epoch are lost, and 64 bits wrap around |
| Mf4Record.EncodeFlags | crates/cantools-codec/src/mf4.rs:57-78 | or-ing the masks gives the sum of the chosen powers of two |
| Mf4Record.EncodeRecord | crates/cantools-codec/src/mf4.rs:48-107 | filling the array in place gives the record layout, with a note per known loss |
| Mf4Record.RecordFields | crates/cantools-codec/src/mf4.rs:109-114 | the offsets and widths of the numeric fields, read back as little-endian integers |
| Mf4Record.FlagWordBits | crates/cantools-codec/src/mf4.rs:25-31 | which bit of the flag word stands for what |
| Mf4Record.DecodeEncoded | crates/cantools-codec/src/mf4.rs:48-164 | for every event, decoding its record gives an explicit normalisation, or the one length error for an invalid frame |
| Mf4Record.RecordRoundTripIff | crates/cantools-codec/src/mf4.rs:48-164 | a record gives back its event if and only if the event is representable |
| Mf4Record.NotedUnlessSilent | crates/cantools-codec/src/mf4.rs:48-107 | of any event each of time, name, index, direction, frame and annotations comes back or has a note of its own, if and only if the event has none of the listed silent losses |
| Mf4File.ChannelsDescribeRecord | crates/cantools-codec/src/mf4.rs:168-181 | the channel definitions cover the record fields exactly and do not overlap |
| Mf4File.WriteMf4 | crates/cantools-codec/src/mf4.rs:183-302 | the loops give the blocks of the file in writing order with their computed links, and the notes of all events |
| Mf4File.ChannelOffsets | crates/cantools-codec/src/mf4.rs:201-249 | the running size of the channels is the distance at which they are later written |
| Mf4File.LinksLandIff | crates/cantools-codec/src/mf4.rs:195-299 | every address stored in a block of the written file is the offset of the block it names if and only if the blocks have the sizes 104, 64 and 160 |
| Mf4File.FollowFrom | crates/cantools-codec/src/mf4.rs:203-249 | from any channel the links visit the rest in order and stop |
| Mf4File.WrittenFileIsLinked | crates/cantools-codec/src/mf4.rs:195-299 | following the stored links from the header finds every channel once with its name, and the capture group with its records |
| Mf4File.ReadRecords | crates/cantools-codec/src/mf4.rs:320-324 | decodes in order, passes over short records, stops at the first error |
| Mf4File.ReadGroup | crates/cantools-codec/src/mf4.rs:310-325 | the loop over the data blocks gives what their records decode to, up to the first error |
| Mf4File.ReadMf4 | crates/cantools-codec/src/mf4.rs:306-332 | reads all groups in order up to the first error |
| Mf4File.PayloadChunks | crates/cantools-codec/src/mf4.rs:276-279 | cutting the payload by the record size gives the records back |
| Mf4File.FileRoundTripIff | crates/cantools-codec/src/mf4.rs:167-332 | a written file can be read if and only if no classic frame exceeds 8 bytes, then gives the normalised events, and gives the very events if and only if all are representable |
| Mf4File.FileNotedUnlessSilent | crates/cantools-codec/src/mf4.rs:48-332 | the same for every event of a whole file, read back through the links, with the notes the writer returns |
| Mf4File.DecodeAllAppend | crates/cantools-codec/src/mf4.rs:320-324 | records read in two parts give the events of both in order, or the first error |
| Mf4Reader.OtherGroupIgnored | crates/cantools-codec/src/mf4.rs:310-313 | a group of any other name changes nothing wherever it stands |
| Mf4Reader.CaptureAmongOthers | crates/cantools-codec/src/mf4.rs:306-332 | the capture group among any groups of other names, with its records in any number of data blocks, reads as a written file does |
| Mf4Reader.ShortRecordIgnored | crates/cantools-codec/src/mf4.rs:320-324 | a record of fewer than 116 bytes changes nothing wherever it stands |
| Mf4Reader.FirstErrorReported | crates/cantools-codec/src/mf4.rs:320-324 | the first record that cannot be decoded is the error of the whole file |
| Mf4Reader.LongRecord | crates/cantools-codec/src/mf4.rs:109-164 | what follows the 116 bytes of a record is not read |
| Mf4Reader.RecordDecodesIff | crates/cantools-codec/src/mf4.rs:109-164 | any record decodes if and only if its identifier and length fit, and to the event whose parts stand at the offsets and bits of the layout |
| Mf4Reader.HeaderDescribesRecords | crates/cantools-codec/src/mf4.rs:253-299 | the start time in the header is that of the first record, and the capture group counts the records of the data block |
| Asc.WriteAsc | crates/cantools-codec/src/asc.rs:123-187 | for any events the loop writes the lines of the log, times rounded as the program rounds them, and the notes of every event in order |
| Asc.ReadAsc | crates/cantools-codec/src/asc.rs:43-120 | the loop gives the parsed events and notes of the lines, up to the first error |
| Asc.TimeKeptIff | crates/cantools-codec/src/asc.rs:110-114 | truncated seconds and modulo nanoseconds of a total give back a time exactly from the epoch on or on whole seconds |
| Binary64.RoundIsNearest | crates/cantools-codec/src/asc.rs:149-150 | each `f64` operation gives a number of 53 significant bits, and no other is nearer to the exact result |
| Binary64.Ties | crates/cantools-codec/src/asc.rs:110-178 | equally near numbers: the even one is taken, and by `round` the one away from zero |
| AscTimes.TimeParses | crates/cantools-codec/src/asc.rs:72-178 | any printed time is parsed to its sign and its microseconds |
| AscTimes.ShortTimeReturnsIff | crates/cantools-codec/src/asc.rs:72-150 | up to 2^22 seconds from the epoch a written time comes back if and only if it is a whole microsecond, and a whole second before the epoch |
| AscTimes.RecentTimeReturnsOnlyIf | crates/cantools-codec/src/asc.rs:72-150 | from July 2006 to January 2038 no written time comes back unless it is a multiple of 256 ns |
| AscTimes.RecentTimeExactIff | crates/cantools-codec/src/asc.rs:72-150 | in those years any time comes back if and only if it is what its nearest microsecond is read as, computed on integers |
| AscTimes.RecentTimeReturnsIff | crates/cantools-codec/src/asc.rs:72-150 | in those years a whole microsecond comes back if and only if it is a multiple of 256 ns |
| AscTimes.RecentTimeLost | crates/cantools-codec/src/asc.rs:72-150 | a whole microsecond of 2023 that comes back 24 ns later |
| AscRoundTrip.IdParses | crates/cantools-codec/src/asc.rs:29-156 | a printed identifier parses to itself, standard or extended |
| AscRoundTrip.BytesParse | crates/cantools-codec/src/asc.rs:21-96 | printed data bytes parse to themselves |
| AscRoundTrip.LineSplits | crates/cantools-codec/src/asc.rs:62-181 | when the interface is one word, the printed line splits into exactly its fields and data bytes |
| AscRoundTrip.EventLineReturnsIff | crates/cantools-codec/src/asc.rs:49-181 | the line of an event parses to its explicit normalisation if and only if the interface is one word and the frame is valid or remote |
| AscRoundTrip.FollowedReturns | crates/cantools-codec/src/asc.rs:83-97 | whatever text follows the declared data bytes of such a line, it parses to the same event |
| AscReader.LineSays | crates/cantools-codec/src/asc.rs:149-181 | what each word of the line of an event means; the declared length is the number of data bytes and of the words behind it |
| AscReader.TimeColumn | crates/cantools-codec/src/asc.rs:178 | the time is right-aligned to column 10 |
| AscReader.CommentSays | crates/cantools-codec/src/asc.rs:164-173 | the comment for an error frame names its identifier and direction |
| AscReader.LogFrame | crates/cantools-codec/src/asc.rs:128-184 | the lines of a log: three in front, one for each event in order, one behind |
| AscReader.DeclaredBytes | crates/cantools-codec/src/asc.rs:83-97 | of more bytes than declared the first ones are taken, of fewer all are |
| AscReader.BytesIff | crates/cantools-codec/src/asc.rs:90-95 | data bytes are read if and only if each word is a number up to 255 in radix 16 |
| AscReader.FirstErrorWins | crates/cantools-codec/src/asc.rs:72-115 | which error a line gives: that of the first field from the left that cannot be read, or the length error |
| AscReader.KindIgnoresCase | crates/cantools-codec/src/asc.rs:81-108 | the case of the frame kind makes no difference |
| AscReader.KindMeans | crates/cantools-codec/src/asc.rs:81-108 | what the frame kinds mean; an unknown one is a data frame without data |
| AscReader.HexIdMeans | crates/cantools-codec/src/asc.rs:29-40 | identifiers with marks or more than three digits are extended, others standard, each within its limit |
| AscReader.DigitsIgnoreCase | crates/cantools-codec/src/asc.rs:32-93 | the case of digits makes no difference |
| AscReader.UnsignedIff | crates/cantools-codec/src/asc.rs:32-93 | numbers are refused when empty, with a wrong digit, or beyond their type |
| AscReader.ExponentMeans | crates/cantools-codec/src/asc.rs:72 | an exponent in a time moves the point |
| AscReader.ScaledShift | crates/cantools-codec/src/asc.rs:72 | ten times the digits at one more decimal place is the same number |
| AscReader.SaturationIsNearest | crates/cantools-codec/src/asc.rs:110 | a time that does not fit 64 bits of nanoseconds reads as the nearest one that does |
| AscReader.ReadAppend | crates/cantools-codec/src/asc.rs:49-117 | two parts of a log give the events and notes of both in order, or the first error |
| AscReader.HeaderLine | crates/cantools-codec/src/asc.rs:52-60 | blank lines, header lines and comments say nothing |
| AscReader.ShortLineNoted | crates/cantools-codec/src/asc.rs:63-70 | any other line of fewer than six words gives one note and no event |
| AscReader.LongLineRead | crates/cantools-codec/src/asc.rs:62-116 | any other line gives one event, or is the error of the whole log wherever it stands |
| AscRoundTrip.CommentSkipped | crates/cantools-codec/src/asc.rs:52-172 | the comment line of an error frame is passed over |
| AscRoundTrip.LogReturnsIff | crates/cantools-codec/src/asc.rs:43-187 | reading a written log gives every event but the error frames, in order, normalised, without notes, if and only if that holds of every event |
| AscRoundTrip.LogRoundTripIff | crates/cantools-codec/src/asc.rs:43-187 | for any events the log gives back exactly them if and only if each of them is faithful |
| AscRoundTrip.DecidedRoundTripIff | crates/cantools-codec/src/asc.rs:43-187 | for times up to 2^22 seconds from the epoch and from 2006 to 2038 that condition is a test on the fields that the caller passes in, times as integers |
| AscRoundTrip.NotedUnlessSilent | crates/cantools-codec/src/asc.rs:43-187 | for any events, each part of each event comes back in order or has a note of its own, and a missing event has a note on its class, if and only if no event but an error frame has one of the listed silent losses |
| Lexical.LinesOfUnlines | crates/cantools-codec/src/asc.rs:49-50 | splitting written lines gives them back |
| AscReader.LinesOfReturned | crates/cantools-codec/src/asc.rs:49-50 | carriage returns in front of line feeds do not belong to the lines |
| AscReader.LastLineCounts | crates/cantools-codec/src/asc.rs:49-50 | the last line counts even if nothing ends it |
| Lexical.TokensSplit | crates/cantools-codec/src/asc.rs:62 | a white-space character separates tokens wherever it stands |
| J1939.DecodeIsLossless | crates/cantools-j1939/src/lib.rs:45-68 | exactly the extended identifiers decode, and the raw value can be rebuilt from the fields |
| J1939.DecodedFields | crates/cantools-j1939/src/lib.rs:45-68 | the fields as arithmetic on the raw value, for both PDU formats |
| J1939.EncodeIsInverse | crates/cantools-j1939/src/lib.rs:45-68 | every canonical set of fields, in both PDU formats, is the decoding of its raw value |
| J1939.DecodeIsInjective | crates/cantools-j1939/src/lib.rs:45-68 | different identifiers decode differently |
| J1939.AfterKeepsLowest | crates/cantools-j1939/src/lib.rs:81-87 | no order of claims takes the address from a node with the lowest NAME |
| J1939.SettledIff | crates/cantools-j1939/src/lib.rs:81-87 | no claim changes anything if and only if only lowest NAMEs are left |
| J1939.ArbitrationResult | crates/cantools-j1939/src/lib.rs:81-87 | any order of claims ends after at most one loss per other node, exactly with the nodes of lowest NAME, whether or not NAMEs are distinct |
| J1939.ClaimsSettle | crates/cantools-j1939/src/lib.rs:81-87 | once a node with the lowest NAME has claimed the address from all others, in any order and among any other claims, exactly the lowest NAMEs hold it |
| J1939.UniqueHolder | crates/cantools-j1939/src/lib.rs:81-87 | with distinct NAMEs the lowest one is then alone after exactly one loss per other node |
| Core.NewFrame | crates/cantools-core/src/lib.rs:122-149 | a frame is built exactly for lengths up to 8, or 64 with FD, and keeps what it was given |

## Left out

- IsoTp.Segment: capacities below 2 with a non-empty payload are outside its precondition, because the loop then does not end; `IsoTp.SegmentTerminatesIff` says so.
- Wire.DecodeEncodedIff: the reader knows the classic layout only; escape sequences, reserved lengths and the minimum lengths of ISO 15765-2 are not checked, as the repository has no such reader.
- SignalBits.ExtractLittleEndian: widths above 64 are excluded, where the shift in the source overflows.
- SignalBits.SignExtendIsTwosComplement: width 0 is excluded, where the shift in the source overflows.
- DbcDecoder.ExtractSignal: widths above 64 and signed signals of width 0 are excluded, where shifts in the source overflow; scaled values are rounded to 53 bits but do not overflow to infinity or underflow.
- DecoderProperties.GrowthKeepsIffStable: assumes that the signals of a message have distinct names.
- Mf4Record.TimeRoundTripIff: the 64-bit product wraps, as in a release build; a debug build panics instead.
- Mf4Record.DecodeEncoded: interface names are ASCII; a byte above 127 in a foreign record reads as a question mark instead of going through lossy UTF-8 conversion.
- Mf4File.LinksLandIff: addresses do not wrap at 64 bits, and block sizes are inputs, because the block library serialises the blocks.
- Mf4File.ReadMf4: the groups, their names and the fixed-size chunks of a data block are inputs, because the MDF library supplies them; an incomplete last chunk is dropped.
- Binary64.RoundIsNearest: exponents are unlimited; a time too large or too small for `f64` reads as the same saturated or zero nanoseconds.
- Asc.ReadAsc: log text is ASCII, so only ASCII white space separates tokens.
- AscRoundTrip.LogRoundTripIff: for times more than 2^22 seconds from the epoch and outside the years from 2006 to 2038, whether the time comes back is left as the computation of `AscTimes.ReadBack`.
- Texts of notes and errors: modelled by kind, without the wording.
- BLF: its byte layout belongs to a library outside the repository.
- SocketCAN, the command line, the terminal interface, UDS, OBD and generated tables: input and output, or small finite lookups.
- Parsing of DBC text: the parsed messages, multiplexor switches and value tables are inputs.
