/** The block layout of an MF4 capture file: addresses computed before anything is written,
    the writing order, and reading the records back through the links. */
module Mf4File {
  import opened Bits
  import opened Wrappers
  import opened Core
  import opened Mf4Record

  // The sizes that the address computation takes for granted.
  const CHANNEL_GROUP_SIZE: nat := 104
  const DATA_GROUP_SIZE: nat := 64
  const CHANNEL_SIZE: nat := 160

  datatype ChannelDef = ChannelDef(name: text, byteOffset: u32, bitCount: u32)

  /** The blocks of the file, with the links and values that the writer chooses. */
  datatype Block =
    | Identification
    | Header(firstDataGroup: nat, headerComment: nat, absTime: u64)
    | ChannelGroup(firstChannel: nat, acquisitionName: nat, groupComment: nat, cycles: nat, samplesBytes: nat)
    | DataGroup(firstChannelGroup: nat, dataBlock: nat)
    | Text(content: text)
    | Channel(nextChannel: nat, nameAddr: nat, def: ChannelDef)
    | DataBlock(payload: seq<byte>)

  /** How many bytes the block library serialises each block to. */
  datatype Sizes = Sizes(
    identification: nat,
    header: nat,
    channelGroup: nat,
    dataGroup: nat,
    channel: nat,
    textSize: text -> nat
  ) {
    ghost predicate Valid() {
      && identification > 0 && header > 0 && channelGroup > 0 && dataGroup > 0 && channel > 0
      && forall t: text :: textSize(t) > 0
    }

    function Of(b: Block): (n: nat)
      requires Valid()
      ensures n > 0
    {
      match b
      case Identification => identification
      case Header(_, _, _) => header
      case ChannelGroup(_, _, _, _, _) => channelGroup
      case DataGroup(_, _) => dataGroup
      case Text(t) => textSize(t)
      case Channel(_, _, _) => channel
      case DataBlock(payload) => 24 + |payload|
    }
  }

  /** The channels of a capture record. */
  const CHANNELS: seq<ChannelDef> := [
    ChannelDef("timestamp_ns", 0, 64),
    ChannelDef("can_id", 8, 32),
    ChannelDef("flags", 12, 16),
    ChannelDef("interface_index", 14, 32),
    ChannelDef("data_len", 18, 8),
    ChannelDef("interface_name", 20, 256),
    ChannelDef("data", 52, 512)
  ]

  /** The bytes of a record that a channel definition describes. */
  function ChannelBytes(def: ChannelDef, record: seq<byte>): seq<byte>
    requires def.byteOffset + def.bitCount / 8 <= |record|
  {
    record[def.byteOffset..def.byteOffset + def.bitCount / 8]
  }

  /** The channel definitions tell another reader where each field of a record is: they do
      not overlap, they lie within the record, and each covers exactly its field. */
  lemma ChannelsDescribeRecord(e: CaptureEvent)
    ensures forall i, k | 0 <= i < k < |CHANNELS| ::
              CHANNELS[i].byteOffset + CHANNELS[i].bitCount / 8 <= CHANNELS[k].byteOffset
    ensures forall i | 0 <= i < |CHANNELS| :: CHANNELS[i].byteOffset + CHANNELS[i].bitCount / 8 <= RECORD_SIZE
    ensures FromLe(ChannelBytes(CHANNELS[0], RecordBytes(e))) == TimestampToNs(e.timestamp)
    ensures FromLe(ChannelBytes(CHANNELS[1], RecordBytes(e))) == e.frame.id.raw
    ensures FromLe(ChannelBytes(CHANNELS[2], RecordBytes(e))) == Flags(e)
    ensures FromLe(ChannelBytes(CHANNELS[3], RecordBytes(e))) == e.iface.index.GetOr(0)
    ensures ChannelBytes(CHANNELS[4], RecordBytes(e)) == [Capped(|e.frame.data|, MAX_DATA)]
    ensures ChannelBytes(CHANNELS[5], RecordBytes(e)) == Padded(NameBytes(InterfaceName(e.iface)), INTERFACE_NAME_LEN)
    ensures ChannelBytes(CHANNELS[6], RecordBytes(e)) == Padded(e.frame.data, MAX_DATA)
  {
    RecordFields(e);
    RecordTail(e);
    var r := RecordBytes(e);
    assert r[0..8] == r[..8];
    assert r[18..19] == [r[18]];
    assert r[52..116] == Padded(e.frame.data, MAX_DATA);
  }

  type File = seq<Block>

  /** The offset at which block `k` is written. */
  function Offset(sizes: Sizes, file: File, k: nat): nat
    requires sizes.Valid() && k <= |file|
  {
    if k == 0 then 0 else Offset(sizes, file, k - 1) + sizes.Of(file[k - 1])
  }

  const COMMENT: text := "cantools-rs capture-focused MF4 export"
  const GROUP_NAME: text := "cantools.capture"

  // ---- the address computation ----

  function ChannelGroupAddr(s: Sizes): nat {
    s.identification + s.header
  }

  function DataGroupAddr(s: Sizes): nat {
    ChannelGroupAddr(s) + CHANNEL_GROUP_SIZE
  }

  function CommentAddr(s: Sizes): nat {
    DataGroupAddr(s) + DATA_GROUP_SIZE
  }

  function GroupNameAddr(s: Sizes): nat
    requires s.Valid()
  {
    CommentAddr(s) + s.textSize(COMMENT)
  }

  function FirstChannelAddr(s: Sizes): nat
    requires s.Valid()
  {
    GroupNameAddr(s) + s.textSize(GROUP_NAME)
  }

  /** `channel_data_size` after the first `k` channels. */
  function ChannelDataSize(s: Sizes, defs: seq<ChannelDef>, k: nat): nat
    requires s.Valid() && k <= |defs|
  {
    if k == 0 then 0 else ChannelDataSize(s, defs, k - 1) + s.channel + s.textSize(defs[k - 1].name)
  }

  function ChannelAddr(s: Sizes, defs: seq<ChannelDef>, k: nat): nat
    requires s.Valid() && k <= |defs|
  {
    FirstChannelAddr(s) + ChannelDataSize(s, defs, k)
  }

  function ChannelBlock(s: Sizes, defs: seq<ChannelDef>, k: nat): Block
    requires s.Valid() && k < |defs|
  {
    var current := ChannelAddr(s, defs, k);
    Channel(
      if k + 1 < |defs| then current + CHANNEL_SIZE + s.textSize(defs[k].name) else 0,
      current + CHANNEL_SIZE,
      defs[k])
  }

  function ChannelBlocks(s: Sizes, defs: seq<ChannelDef>, k: nat): (blocks: File)
    requires s.Valid() && k <= |defs|
    ensures |blocks| == 2 * k
  {
    if k == 0 then []
    else ChannelBlocks(s, defs, k - 1) + [ChannelBlock(s, defs, k - 1), Text(defs[k - 1].name)]
  }

  function Payload(events: seq<CaptureEvent>): (p: seq<byte>)
    ensures |p| == |events| * RECORD_SIZE
  {
    if events == [] then [] else Payload(events[..|events| - 1]) + RecordBytes(events[|events| - 1])
  }

  function Notes(events: seq<CaptureEvent>): seq<FidelityNote> {
    if events == [] then []
    else Notes(events[..|events| - 1]) + RecordNotes(events[|events| - 1], |events| - 1)
  }

  function Preamble(s: Sizes, defs: seq<ChannelDef>, events: seq<CaptureEvent>): (file: File)
    requires s.Valid()
    ensures |file| == 6
  {
    [Identification,
     Header(DataGroupAddr(s), CommentAddr(s), if events == [] then 0 else TimestampToNs(events[0].timestamp)),
     ChannelGroup(FirstChannelAddr(s), GroupNameAddr(s), CommentAddr(s), |events|, RECORD_SIZE),
     DataGroup(ChannelGroupAddr(s), ChannelAddr(s, defs, |defs|)),
     Text(COMMENT),
     Text(GROUP_NAME)]
  }

  /** The file as a sequence of blocks in writing order. */
  function Written(s: Sizes, defs: seq<ChannelDef>, events: seq<CaptureEvent>): (file: File)
    requires s.Valid()
    ensures |file| == 7 + 2 * |defs|
  {
    Preamble(s, defs, events) + ChannelBlocks(s, defs, |defs|) + [DataBlock(Payload(events))]
  }

  method WriteMf4(s: Sizes, defs: seq<ChannelDef>, events: seq<CaptureEvent>)
    returns (file: File, notes: seq<FidelityNote>)
    requires s.Valid()
    ensures file == Written(s, defs, events) && notes == Notes(events)
  {
    notes := [];
    var channelGroupAddr := s.identification + s.header;
    var dataGroupAddr := channelGroupAddr + 104;
    var commentAddr := dataGroupAddr + 64;
    var groupNameAddr := commentAddr + s.textSize(COMMENT);
    var firstChannelAddr := groupNameAddr + s.textSize(GROUP_NAME);

    var channelBlocks: File := [];
    var channelDataSize := 0;
    for index := 0 to |defs|
      invariant channelDataSize == ChannelDataSize(s, defs, index)
      invariant channelBlocks == ChannelBlocks(s, defs, index)
    {
      var nameSize := s.textSize(defs[index].name);
      var current := firstChannelAddr + channelDataSize;
      var next := if index + 1 < |defs| then current + 160 + nameSize else 0;
      var channel := Channel(next, current + 160, defs[index]);
      channelDataSize := channelDataSize + s.Of(channel) + nameSize;
      channelBlocks := channelBlocks + [channel, Text(defs[index].name)];
    }

    var dataAddr := firstChannelAddr + channelDataSize;
    var header := Header(dataGroupAddr, commentAddr, if events == [] then 0 else TimestampToNs(events[0].timestamp));
    var channelGroup := ChannelGroup(firstChannelAddr, groupNameAddr, commentAddr, |events|, RECORD_SIZE);
    var dataGroup := DataGroup(channelGroupAddr, dataAddr);

    var payload: seq<byte> := [];
    for index := 0 to |events|
      invariant payload == Payload(events[..index]) && notes == Notes(events[..index])
    {
      assert events[..index + 1][..index] == events[..index];
      var record;
      record, notes := EncodeRecord(events[index], notes, index);
      payload := payload + record[..];
    }
    assert events[..|events|] == events;

    file := [Identification, header, channelGroup, dataGroup, Text(COMMENT), Text(GROUP_NAME)];
    file := file + channelBlocks;
    file := file + [DataBlock(payload)];
  }

  // ---- every link lands on the block it names ----

  lemma {:induction false} OffsetOfPrefix(s: Sizes, file: File, tail: File, k: nat)
    requires s.Valid() && k <= |file|
    ensures Offset(s, file + tail, k) == Offset(s, file, k)
  {
    if k > 0 {
      OffsetOfPrefix(s, file, tail, k - 1);
    }
  }

  lemma {:induction false} OffsetsIncrease(s: Sizes, file: File, j: nat, k: nat)
    requires s.Valid() && j < k <= |file|
    ensures Offset(s, file, j) < Offset(s, file, k)
    decreases k
  {
    if j < k - 1 {
      OffsetsIncrease(s, file, j, k - 1);
    }
  }

  lemma PreambleOffsets(s: Sizes, defs: seq<ChannelDef>, events: seq<CaptureEvent>)
    requires s.Valid()
    ensures var file := Written(s, defs, events);
            && file[..6] == Preamble(s, defs, events)
            && Offset(s, file, 1) == s.identification
            && Offset(s, file, 2) == s.identification + s.header
            && Offset(s, file, 3) == Offset(s, file, 2) + s.channelGroup
            && Offset(s, file, 4) == Offset(s, file, 3) + s.dataGroup
            && Offset(s, file, 5) == Offset(s, file, 4) + s.textSize(COMMENT)
            && Offset(s, file, 6) == Offset(s, file, 5) + s.textSize(GROUP_NAME)
  {
    var file := Written(s, defs, events);
    assert forall k | 0 <= k < 6 :: file[k] == Preamble(s, defs, events)[k];
  }

  lemma PreambleBlocks(s: Sizes, defs: seq<ChannelDef>, events: seq<CaptureEvent>)
    requires s.Valid()
    ensures forall k | 0 <= k < 6 :: Written(s, defs, events)[k] == Preamble(s, defs, events)[k]
    ensures Written(s, defs, events)[6 + 2 * |defs|] == DataBlock(Payload(events))
  {
  }

  lemma {:induction false} ChannelBlocksIndex(s: Sizes, defs: seq<ChannelDef>, n: nat, k: nat)
    requires s.Valid() && k < n <= |defs|
    ensures ChannelBlocks(s, defs, n)[2 * k] == ChannelBlock(s, defs, k)
    ensures ChannelBlocks(s, defs, n)[2 * k + 1] == Text(defs[k].name)
    decreases n
  {
    if k < n - 1 {
      ChannelBlocksIndex(s, defs, n - 1, k);
    }
  }

  lemma ChannelPlaces(s: Sizes, defs: seq<ChannelDef>, events: seq<CaptureEvent>, k: nat)
    requires s.Valid() && k < |defs|
    ensures var file := Written(s, defs, events);
            file[6 + 2 * k] == ChannelBlock(s, defs, k) && file[7 + 2 * k] == Text(defs[k].name)
  {
    ChannelBlocksIndex(s, defs, |defs|, k);
  }

  lemma {:induction false} ChannelOffsets(s: Sizes, defs: seq<ChannelDef>, events: seq<CaptureEvent>, k: nat)
    requires s.Valid() && k <= |defs|
    ensures Offset(s, Written(s, defs, events), 6 + 2 * k)
         == Offset(s, Written(s, defs, events), 6) + ChannelDataSize(s, defs, k)
    decreases k
  {
    if k > 0 {
      var file := Written(s, defs, events);
      ChannelOffsets(s, defs, events, k - 1);
      ChannelPlaces(s, defs, events, k - 1);
      assert Offset(s, file, 6 + 2 * k) == Offset(s, file, 5 + 2 * k) + s.Of(file[5 + 2 * k]);
      assert Offset(s, file, 5 + 2 * k) == Offset(s, file, 4 + 2 * k) + s.Of(file[4 + 2 * k]);
    }
  }

  /** Every address stored in the file is the offset of the block it should point to. */
  predicate LinksLand(s: Sizes, n: nat, file: File)
    requires s.Valid() && |file| == 7 + 2 * n
  {
    && file[1].Header? && file[2].ChannelGroup? && file[3].DataGroup?
    && file[1].firstDataGroup == Offset(s, file, 3)
    && file[1].headerComment == Offset(s, file, 4)
    && file[2].firstChannel == Offset(s, file, 6)
    && file[2].acquisitionName == Offset(s, file, 5)
    && file[2].groupComment == Offset(s, file, 4)
    && file[3].firstChannelGroup == Offset(s, file, 2)
    && file[3].dataBlock == Offset(s, file, 6 + 2 * n)
    && forall k | 0 <= k < n :: ChannelLinksLand(s, n, file, k)
  }

  predicate ChannelLinksLand(s: Sizes, n: nat, file: File, k: nat)
    requires s.Valid() && |file| == 7 + 2 * n && k < n
  {
    var b := file[6 + 2 * k];
    && b.Channel?
    && b.nameAddr == Offset(s, file, 7 + 2 * k)
    && b.nextChannel == if k + 1 < n then Offset(s, file, 8 + 2 * k) else 0
  }

  predicate AssumedSizes(s: Sizes, defs: seq<ChannelDef>) {
    s.channelGroup == CHANNEL_GROUP_SIZE && s.dataGroup == DATA_GROUP_SIZE && (defs != [] ==> s.channel == CHANNEL_SIZE)
  }

  lemma ChannelLinks(s: Sizes, defs: seq<ChannelDef>, events: seq<CaptureEvent>, k: nat)
    requires s.Valid() && k < |defs|
    requires FirstChannelAddr(s) == Offset(s, Written(s, defs, events), 6)
    ensures ChannelLinksLand(s, |defs|, Written(s, defs, events), k) <==> s.channel == CHANNEL_SIZE
  {
    var file := Written(s, defs, events);
    ChannelOffsets(s, defs, events, k);
    ChannelOffsets(s, defs, events, k + 1);
    ChannelPlaces(s, defs, events, k);
    assert Offset(s, file, 7 + 2 * k) == Offset(s, file, 6 + 2 * k) + s.Of(file[6 + 2 * k]);
    assert Offset(s, file, 8 + 2 * k) == Offset(s, file, 7 + 2 * k) + s.Of(file[7 + 2 * k]);
  }

  /** The addresses are right for exactly the block sizes that are written into the code. */
  lemma LinksLandIff(s: Sizes, defs: seq<ChannelDef>, events: seq<CaptureEvent>)
    requires s.Valid()
    ensures LinksLand(s, |defs|, Written(s, defs, events)) <==> AssumedSizes(s, defs)
  {
    var file := Written(s, defs, events);
    PreambleOffsets(s, defs, events);
    PreambleBlocks(s, defs, events);
    ChannelOffsets(s, defs, events, |defs|);
    if FirstChannelAddr(s) == Offset(s, file, 6) {
      forall k | 0 <= k < |defs|
        ensures ChannelLinksLand(s, |defs|, file, k) <==> s.channel == CHANNEL_SIZE
      {
        ChannelLinks(s, defs, events, k);
      }
      if defs != [] && LinksLand(s, |defs|, file) {
        assert ChannelLinksLand(s, |defs|, file, 0);
      }
    }
  }

  // ---- following the links ----

  /** The block that starts at an address. */
  function BlockAt(s: Sizes, file: File, addr: nat): Option<Block>
    requires s.Valid()
  {
    if file == [] then None
    else if Offset(s, file, |file| - 1) == addr then Some(file[|file| - 1])
    else BlockAt(s, file[..|file| - 1], addr)
  }

  lemma {:induction false} BlockAtOffset(s: Sizes, file: File, k: nat)
    requires s.Valid() && k < |file|
    ensures BlockAt(s, file, Offset(s, file, k)) == Some(file[k])
    decreases |file|
  {
    if k < |file| - 1 {
      var front := file[..|file| - 1];
      OffsetsIncrease(s, file, k, |file| - 1);
      assert file == front + [file[|file| - 1]];
      OffsetOfPrefix(s, front, [file[|file| - 1]], k);
      BlockAtOffset(s, front, k);
    }
  }

  datatype NamedChannel = NamedChannel(def: ChannelDef, name: text)

  /** The channels reached from an address, at most `fuel` of them, until a zero link. */
  function Follow(s: Sizes, file: File, addr: nat, fuel: nat): Option<seq<NamedChannel>>
    requires s.Valid()
    decreases fuel
  {
    if addr == 0 then Some([])
    else if fuel == 0 then None
    else
      match BlockAt(s, file, addr)
      case Some(Channel(next, nameAddr, def)) =>
        (match BlockAt(s, file, nameAddr)
         case Some(Text(name)) =>
           var rest := Follow(s, file, next, fuel - 1);
           if rest.None? then None else Some([NamedChannel(def, name)] + rest.value)
         case _ => None)
      case _ => None
  }

  function Named(defs: seq<ChannelDef>): (r: seq<NamedChannel>)
    ensures |r| == |defs|
  {
    seq(|defs|, k requires 0 <= k < |defs| => NamedChannel(defs[k], defs[k].name))
  }

  lemma ChannelAt(s: Sizes, defs: seq<ChannelDef>, events: seq<CaptureEvent>, k: nat, file: File, channel: Block)
    requires s.Valid() && AssumedSizes(s, defs) && k < |defs|
    requires file == Written(s, defs, events) && channel == ChannelBlock(s, defs, k)
    ensures ChannelAddr(s, defs, k) > 0
    ensures BlockAt(s, file, ChannelAddr(s, defs, k)) == Some(channel)
    ensures BlockAt(s, file, channel.nameAddr) == Some(Text(defs[k].name))
    ensures channel.nextChannel == if k + 1 < |defs| then ChannelAddr(s, defs, k + 1) else 0
  {
    LinksLandIff(s, defs, events);
    ChannelOffsets(s, defs, events, k);
    ChannelPlaces(s, defs, events, k);
    assert ChannelLinksLand(s, |defs|, file, k);
    BlockAtOffset(s, file, 6 + 2 * k);
    BlockAtOffset(s, file, 7 + 2 * k);
    if k + 1 < |defs| {
      ChannelOffsets(s, defs, events, k + 1);
    }
  }

  lemma NamedCons(defs: seq<ChannelDef>, k: nat)
    requires k < |defs|
    ensures Named(defs[k..]) == [NamedChannel(defs[k], defs[k].name)] + Named(defs[k + 1..])
  {
  }

  lemma {:induction false} FollowFrom(s: Sizes, defs: seq<ChannelDef>, events: seq<CaptureEvent>, k: nat, fuel: nat)
    requires s.Valid() && AssumedSizes(s, defs) && k < |defs| && fuel >= |defs| - k
    ensures Follow(s, Written(s, defs, events), ChannelAddr(s, defs, k), fuel) == Some(Named(defs[k..]))
    decreases |defs| - k
  {
    var file, channel := Written(s, defs, events), ChannelBlock(s, defs, k);
    ChannelAt(s, defs, events, k, file, channel);
    var j, less := k + 1, fuel - 1;
    assert Follow(s, file, channel.nextChannel, less) == Some(Named(defs[j..])) by {
      if j < |defs| {
        FollowFrom(s, defs, events, j, less);
      }
    }
    NamedCons(defs, k);
  }

  // ---- reading ----

  /** Fixed-size chunks of a data block; an incomplete chunk at the end is dropped. */
  function Chunks(payload: seq<byte>, size: nat): (r: seq<seq<byte>>)
    ensures forall k | 0 <= k < |r| :: |r[k]| == size
  {
    if size == 0 || |payload| < size then [] else [payload[..size]] + Chunks(payload[size..], size)
  }

  /** Decodes records in order, passing over short ones, up to the first error. */
  function DecodeAll(records: seq<seq<byte>>): Result<seq<CaptureEvent>, CodecError> {
    if records == [] then Success([])
    else DecodeNext(DecodeAll(records[..|records| - 1]), records[|records| - 1])
  }

  function DecodeNext(front: Result<seq<CaptureEvent>, CodecError>, record: seq<byte>)
    : Result<seq<CaptureEvent>, CodecError>
  {
    if front.Failure? || |record| < RECORD_SIZE then front
    else
      var e := DecodeRecord(record);
      if e.Failure? then Failure(e.error) else Success(front.value + [e.value])
  }

  function Sequel(a: Result<seq<CaptureEvent>, CodecError>, b: Result<seq<CaptureEvent>, CodecError>)
    : Result<seq<CaptureEvent>, CodecError>
  {
    if a.Failure? then a else if b.Failure? then b else Success(a.value + b.value)
  }

  lemma SequelNext(a: Result<seq<CaptureEvent>, CodecError>, b: Result<seq<CaptureEvent>, CodecError>, r: seq<byte>)
    ensures DecodeNext(Sequel(a, b), r) == Sequel(a, DecodeNext(b, r))
  {
    if a.Success? && b.Success? && DecodeNext(b, r).Success? && |r| >= RECORD_SIZE {
      var e := DecodeRecord(r).value;
      assert (a.value + b.value) + [e] == a.value + (b.value + [e]);
    }
  }

  lemma {:induction false} DecodeAllAppend(a: seq<seq<byte>>, b: seq<seq<byte>>)
    ensures DecodeAll(a + b) == Sequel(DecodeAll(a), DecodeAll(b))
  {
    if b == [] {
      assert a + b == a;
      assert DecodeAll(a).Success? ==> DecodeAll(a).value + [] == DecodeAll(a).value;
    } else {
      var front, last := b[..|b| - 1], b[|b| - 1];
      assert (a + b)[..|a + b| - 1] == a + front && (a + b)[|a + b| - 1] == last;
      DecodeAllAppend(a, front);
      SequelNext(DecodeAll(a), DecodeAll(front), last);
    }
  }

  /** A channel group of the file as the MDF library presents it. */
  datatype Group = Group(name: Option<text>, recordSize: nat, blocks: seq<seq<byte>>)

  function BlockRecords(blocks: seq<seq<byte>>, size: nat): seq<seq<byte>> {
    if blocks == [] then []
    else BlockRecords(blocks[..|blocks| - 1], size) + Chunks(blocks[|blocks| - 1], size)
  }

  function GroupRecords(group: Group): seq<seq<byte>> {
    if group.name != Some(GROUP_NAME) then [] else BlockRecords(group.blocks, group.recordSize)
  }

  function AllRecords(groups: seq<Group>): seq<seq<byte>> {
    if groups == [] then []
    else AllRecords(groups[..|groups| - 1]) + GroupRecords(groups[|groups| - 1])
  }

  lemma {:induction false} BlockRecordsAppend(a: seq<seq<byte>>, b: seq<seq<byte>>, size: nat)
    ensures BlockRecords(a + b, size) == BlockRecords(a, size) + BlockRecords(b, size)
  {
    if b == [] {
      assert a + b == a;
    } else {
      var front, last := b[..|b| - 1], b[|b| - 1];
      assert (a + b)[..|a + b| - 1] == a + front && (a + b)[|a + b| - 1] == last;
      BlockRecordsAppend(a, front, size);
    }
  }

  lemma {:induction false} AllRecordsAppend(a: seq<Group>, b: seq<Group>)
    ensures AllRecords(a + b) == AllRecords(a) + AllRecords(b)
  {
    if b == [] {
      assert a + b == a;
    } else {
      var front, last := b[..|b| - 1], b[|b| - 1];
      assert (a + b)[..|a + b| - 1] == a + front && (a + b)[|a + b| - 1] == last;
      AllRecordsAppend(a, front);
    }
  }

  lemma BlockRecordsSnoc(blocks: seq<seq<byte>>, size: nat, k: nat)
    requires k < |blocks|
    ensures BlockRecords(blocks[..k + 1], size) == BlockRecords(blocks[..k], size) + Chunks(blocks[k], size)
  {
    assert blocks[..k + 1][..k] == blocks[..k];
  }

  lemma SplitInTwo<T>(s: seq<T>, k: nat)
    requires k <= |s|
    ensures s == s[..k] + s[k..]
    ensures k < |s| ==> s[..k + 1] == s[..k] + [s[k]]
  {
  }

  method ReadRecords(records: seq<seq<byte>>) returns (r: Result<seq<CaptureEvent>, CodecError>)
    ensures r == DecodeAll(records)
  {
    var events := [];
    for k := 0 to |records|
      invariant DecodeAll(records[..k]) == Success(events)
    {
      assert records[..k + 1][..k] == records[..k];
      if |records[k]| >= RECORD_SIZE {
        var event := DecodeRecord(records[k]);
        if event.Failure? {
          assert records == records[..k + 1] + records[k + 1..];
          DecodeAllAppend(records[..k + 1], records[k + 1..]);
          return Failure(event.error);
        }
        events := events + [event.value];
      }
    }
    assert records[..|records|] == records;
    r := Success(events);
  }

  method ReadGroup(group: Group) returns (r: Result<seq<CaptureEvent>, CodecError>)
    ensures r == DecodeAll(GroupRecords(group))
  {
    var events := [];
    if group.name != Some(GROUP_NAME) {
      return Success(events);
    }
    for k := 0 to |group.blocks|
      invariant DecodeAll(BlockRecords(group.blocks[..k], group.recordSize)) == Success(events)
    {
      ghost var done := BlockRecords(group.blocks[..k], group.recordSize);
      var chunks := Chunks(group.blocks[k], group.recordSize);
      BlockRecordsSnoc(group.blocks, group.recordSize, k);
      DecodeAllAppend(done, chunks);
      var more := ReadRecords(chunks);
      if more.Failure? {
        SplitInTwo(group.blocks, k + 1);
        BlockRecordsAppend(group.blocks[..k + 1], group.blocks[k + 1..], group.recordSize);
        DecodeAllAppend(done + chunks, BlockRecords(group.blocks[k + 1..], group.recordSize));
        return more;
      }
      events := events + more.value;
    }
    assert group.blocks[..|group.blocks|] == group.blocks;
    r := Success(events);
  }

  /** Reads every group with the right name; the report carries no notes. */
  method ReadMf4(groups: seq<Group>) returns (r: Result<seq<CaptureEvent>, CodecError>)
    ensures r == DecodeAll(AllRecords(groups))
  {
    var events := [];
    for k := 0 to |groups|
      invariant DecodeAll(AllRecords(groups[..k])) == Success(events)
    {
      assert groups[..k + 1][..k] == groups[..k];
      DecodeAllAppend(AllRecords(groups[..k]), GroupRecords(groups[k]));
      var more := ReadGroup(groups[k]);
      if more.Failure? {
        SplitInTwo(groups, k + 1);
        AllRecordsAppend(groups[..k + 1], groups[k + 1..]);
        DecodeAllAppend(AllRecords(groups[..k + 1]), AllRecords(groups[k + 1..]));
        return more;
      }
      events := events + more.value;
    }
    assert groups[..|groups|] == groups;
    r := Success(events);
  }

  /** The channel group found by following the links from the header block. */
  function GroupOf(s: Sizes, file: File): Option<Group>
    requires s.Valid()
  {
    match BlockAt(s, file, s.identification)
    case Some(Header(firstDataGroup, _, _)) =>
      (match BlockAt(s, file, firstDataGroup)
       case Some(DataGroup(firstChannelGroup, dataBlock)) =>
         (match (BlockAt(s, file, firstChannelGroup), BlockAt(s, file, dataBlock))
          case (Some(ChannelGroup(_, name, _, _, size)), Some(DataBlock(payload))) =>
            var title := BlockAt(s, file, name);
            Some(Group(if title.Some? && title.value.Text? then Some(title.value.content) else None, size, [payload]))
          case _ => None)
       case _ => None)
    case _ => None
  }

  /** The channels found by following the links from the header block. */
  function ChannelsOf(s: Sizes, file: File, fuel: nat): Option<seq<NamedChannel>>
    requires s.Valid()
  {
    match BlockAt(s, file, s.identification)
    case Some(Header(firstDataGroup, _, _)) =>
      (match BlockAt(s, file, firstDataGroup)
       case Some(DataGroup(firstChannelGroup, _)) =>
         (match BlockAt(s, file, firstChannelGroup)
          case Some(ChannelGroup(firstChannel, _, _, _, _)) => Follow(s, file, firstChannel, fuel)
          case _ => None)
       case _ => None)
    case _ => None
  }

  // ---- the round trip ----

  lemma {:induction false} ChunksAppend(payload: seq<byte>, record: seq<byte>, size: nat)
    requires size > 0 && |payload| % size == 0 && |record| == size
    ensures Chunks(payload + record, size) == Chunks(payload, size) + [record]
    decreases |payload|
  {
    if |payload| < size {
      assert payload == [] by {
        ModLessThan(|payload|, size);
      }
      assert payload + record == record && record[size..] == [] && record[..size] == record;
      assert Chunks(record, size) == [record] + Chunks([], size);
    } else {
      var rest := payload[size..];
      ModShift(|payload|, size);
      assert (payload + record)[size..] == rest + record && (payload + record)[..size] == payload[..size];
      ChunksAppend(rest, record, size);
    }
  }

  lemma ModLessThan(x: nat, d: nat)
    requires x < d
    ensures x % d == x
  {
  }

  lemma ModShift(x: nat, d: nat)
    requires x >= d > 0
    ensures (x - d) % d == x % d
  {
    assert x == x / d * d + x % d;
    assert x - d == (x / d - 1) * d + x % d;
    DivModUnique(x - d, d, x / d - 1, x % d);
  }

  lemma {:induction false} PayloadChunks(events: seq<CaptureEvent>)
    ensures |Chunks(Payload(events), RECORD_SIZE)| == |events|
    ensures forall k | 0 <= k < |events| :: Chunks(Payload(events), RECORD_SIZE)[k] == RecordBytes(events[k])
  {
    if events != [] {
      var front := events[..|events| - 1];
      PayloadChunks(front);
      DivModUnique(|Payload(front)|, RECORD_SIZE, |front|, 0);
      ChunksAppend(Payload(front), RecordBytes(events[|events| - 1]), RECORD_SIZE);
    }
  }

  function NormalisedAll(events: seq<CaptureEvent>): (r: seq<CaptureEvent>)
    ensures |r| == |events|
  {
    seq(|events|, k requires 0 <= k < |events| => Normalised(events[k]))
  }

  predicate RecordsOf(records: seq<seq<byte>>, events: seq<CaptureEvent>) {
    |records| == |events| && forall k | 0 <= k < |events| :: records[k] == RecordBytes(events[k])
  }

  /** A classic frame with more than 8 bytes is written, but cannot be read. */
  predicate AllStorable(events: seq<CaptureEvent>) {
    forall k | 0 <= k < |events| :: events[k].frame.fd || |events[k].frame.data| <= 8
  }

  lemma {:induction false} DecodeNormalises(records: seq<seq<byte>>, events: seq<CaptureEvent>)
    requires RecordsOf(records, events)
    ensures DecodeAll(records).Success? <==> AllStorable(events)
    ensures DecodeAll(records).Success? ==> DecodeAll(records).value == NormalisedAll(events)
  {
    if events != [] {
      var front, last := events[..|events| - 1], events[|events| - 1];
      var earlier := records[..|records| - 1];
      FrontLast(events);
      DecodeNormalises(earlier, front);
      NextNormalises(DecodeAll(earlier), NormalisedAll(front), last);
      NormalisedSnoc(front, last);
      StorableSnoc(front, last);
    }
  }

  lemma StorableSnoc(front: seq<CaptureEvent>, last: CaptureEvent)
    ensures AllStorable(front + [last]) <==> AllStorable(front) && (last.frame.fd || |last.frame.data| <= 8)
  {
    assert forall k | 0 <= k < |front| :: (front + [last])[k] == front[k];
    assert (front + [last])[|front|] == last;
  }

  lemma NormalisedSnoc(front: seq<CaptureEvent>, last: CaptureEvent)
    ensures NormalisedAll(front + [last]) == NormalisedAll(front) + [Normalised(last)]
  {
  }

  lemma NextNormalises(r: Result<seq<CaptureEvent>, CodecError>, front: seq<CaptureEvent>, e: CaptureEvent)
    requires r.Success? ==> r.value == front
    ensures var next := DecodeNext(r, RecordBytes(e));
            && (next.Success? <==> r.Success? && (e.frame.fd || |e.frame.data| <= 8))
            && (next.Success? ==> next.value == front + [Normalised(e)])
  {
    DecodeEncoded(e);
  }

  lemma NextExactIff(r: Result<seq<CaptureEvent>, CodecError>, front: seq<CaptureEvent>, last: CaptureEvent)
    requires r.Success? ==> |r.value| == |front|
    ensures var next := DecodeNext(r, RecordBytes(last));
            && (next == Success(front + [last]) <==> r == Success(front) && Representable(last))
            && (next.Success? ==> |next.value| == |front| + 1)
  {
    var e := DecodeRecord(RecordBytes(last));
    RecordRoundTripIff(last);
    if r.Success? && e.Success? && r.value + [e.value] == front + [last] {
      assert r.value == (r.value + [e.value])[..|front|] == front;
      assert e.value == (r.value + [e.value])[|front|] == last;
    }
  }

  lemma {:induction false} DecodeExactIff(records: seq<seq<byte>>, events: seq<CaptureEvent>)
    requires RecordsOf(records, events)
    ensures DecodeAll(records) == Success(events) <==> forall k | 0 <= k < |events| :: Representable(events[k])
    ensures DecodeAll(records).Success? ==> |DecodeAll(records).value| == |events|
  {
    if events != [] {
      var front, last := events[..|events| - 1], events[|events| - 1];
      var earlier := records[..|records| - 1];
      FrontLast(events);
      DecodeExactIff(earlier, front);
      NextExactIff(DecodeAll(earlier), front, last);
      AllRepresentableSnoc(front, last);
    }
  }

  lemma AllRepresentableSnoc(front: seq<CaptureEvent>, last: CaptureEvent)
    ensures (forall k | 0 <= k < |front + [last]| :: Representable((front + [last])[k]))
       <==> (forall k | 0 <= k < |front| :: Representable(front[k])) && Representable(last)
  {
    assert forall k | 0 <= k < |front| :: (front + [last])[k] == front[k];
    assert (front + [last])[|front|] == last;
  }

  /** Following the links of a written file from its header finds every channel once, in
      order and with its name, and the one capture group with its records. */
  lemma WrittenFileIsLinked(s: Sizes, defs: seq<ChannelDef>, events: seq<CaptureEvent>, fuel: nat)
    requires s.Valid() && AssumedSizes(s, defs) && defs != [] && fuel >= |defs|
    ensures ChannelsOf(s, Written(s, defs, events), fuel) == Some(Named(defs))
    ensures GroupOf(s, Written(s, defs, events)) == Some(Group(Some(GROUP_NAME), RECORD_SIZE, [Payload(events)]))
  {
    var file := Written(s, defs, events);
    LinksLandIff(s, defs, events);
    PreambleOffsets(s, defs, events);
    assert defs[0..] == defs;
    FollowFrom(s, defs, events, 0, fuel);
    BlockAtOffset(s, file, 1);
    BlockAtOffset(s, file, 2);
    BlockAtOffset(s, file, 3);
    BlockAtOffset(s, file, 5);
    BlockAtOffset(s, file, 6 + 2 * |defs|);
    PreambleBlocks(s, defs, events);
  }

  /** A written file can be read if and only if no classic frame has more than 8 bytes, and
      then gives the normalised events; it gives exactly the events written if and only if
      every one of them is representable. */
  lemma FileRoundTripIff(s: Sizes, defs: seq<ChannelDef>, events: seq<CaptureEvent>)
    requires s.Valid() && AssumedSizes(s, defs) && defs != []
    ensures GroupOf(s, Written(s, defs, events)).Some?
    ensures var read := DecodeAll(AllRecords([GroupOf(s, Written(s, defs, events)).value]));
            && (read.Success? <==> AllStorable(events))
            && (read.Success? ==> read.value == NormalisedAll(events))
            && (read == Success(events) <==> forall k | 0 <= k < |events| :: Representable(events[k]))
  {
    var group := Group(Some(GROUP_NAME), RECORD_SIZE, [Payload(events)]);
    WrittenFileIsLinked(s, defs, events, |defs|);
    PayloadChunks(events);
    var records := Chunks(Payload(events), RECORD_SIZE);
    assert AllRecords([group]) == records by {
      assert [group][..0] == [] && group.blocks[..0] == [];
      assert BlockRecords(group.blocks, RECORD_SIZE) == [] + records;
      assert AllRecords([group]) == [] + GroupRecords(group);
    }
    DecodeExactIff(records, events);
    DecodeNormalises(records, events);
  }

  // ---- notes of a whole file ----

  lemma {:induction false} NotesIndexed(events: seq<CaptureEvent>, note: FidelityNote)
    requires note in Notes(events)
    ensures note.eventIndex.Some? && note.eventIndex.value < |events|
  {
    var front, last := events[..|events| - 1], events[|events| - 1];
    if note in Notes(front) {
      NotesIndexed(front, note);
    }
  }

  /** The notes that carry the number of an event are its own. */
  lemma {:induction false} NotesOf(events: seq<CaptureEvent>, k: nat, field: NoteField)
    requires k < |events|
    ensures Noted(Notes(events), k, field) <==> Noted(RecordNotes(events[k], k), k, field)
    decreases |events|
  {
    var j := |events| - 1;
    var front, last, note := events[..j], events[j], FidelityNote(Some(k), field);
    assert Notes(events) == Notes(front) + RecordNotes(last, j);
    if k < j {
      NotesOf(front, k, field);
      assert note !in RecordNotes(last, j);
    } else if note in Notes(front) {
      NotesIndexed(front, note);
    }
  }

  /** What is read keeps every part of every event, in order, or there is a note for it. */
  predicate AllNoted(events: seq<CaptureEvent>, read: Result<seq<CaptureEvent>, CodecError>) {
    && read.Success?
    && |read.value| == |events|
    && forall k | 0 <= k < |events| :: LossesNoted(events[k], read.value[k], k, Notes(events))
  }

  lemma AllNotedIff(events: seq<CaptureEvent>, read: Result<seq<CaptureEvent>, CodecError>)
    requires read.Success? <==> AllStorable(events)
    requires read.Success? ==> read.value == NormalisedAll(events)
    ensures AllNoted(events, read) <==> forall k | 0 <= k < |events| :: !SilentLoss(events[k])
  {
    if AllStorable(events) {
      forall k | 0 <= k < |events|
        ensures LossesNoted(events[k], Normalised(events[k]), k, Notes(events)) <==> !SilentLoss(events[k])
      {
        forall field
          ensures Noted(Notes(events), k, field) <==> Noted(RecordNotes(events[k], k), k, field)
        {
          NotesOf(events, k, field);
        }
        PartsNotedIff(events[k], k, Notes(events));
        DecodeEncoded(events[k]);
      }
    }
  }

  /** A written file keeps every part of every event or notes its loss, as the design
      promises, exactly when no event has a silent loss. */
  lemma FileNotedUnlessSilent(s: Sizes, defs: seq<ChannelDef>, events: seq<CaptureEvent>)
    requires s.Valid() && AssumedSizes(s, defs) && defs != []
    ensures GroupOf(s, Written(s, defs, events)).Some?
    ensures AllNoted(events, DecodeAll(AllRecords([GroupOf(s, Written(s, defs, events)).value])))
       <==> forall k | 0 <= k < |events| :: !SilentLoss(events[k])
  {
    FileRoundTripIff(s, defs, events);
    AllNotedIff(events, DecodeAll(AllRecords([GroupOf(s, Written(s, defs, events)).value])));
  }
}
