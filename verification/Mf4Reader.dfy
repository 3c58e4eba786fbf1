/** The MF4 reader on files that hold more than a written one, and on any record. */
module Mf4Reader {
  import opened Bits
  import opened Wrappers
  import opened Core
  import opened SignalBits
  import opened Mf4Record
  import opened Mf4File

  // ---- groups of other names ----

  predicate OtherName(group: Group) {
    group.name != Some("cantools.capture")
  }

  lemma OtherEmpty(group: Group)
    requires OtherName(group)
    ensures AllRecords([group]) == []
  {
    assert [group][..0] == [];
    assert AllRecords([]) + GroupRecords(group) == [];
  }

  lemma MiddleEmpty(a: seq<Group>, middle: seq<Group>, b: seq<Group>)
    requires AllRecords(middle) == []
    ensures AllRecords(a + middle + b) == AllRecords(a + b)
  {
    AllRecordsAppend(a + middle, b);
    AllRecordsAppend(a, middle);
    AllRecordsAppend(a, b);
    assert AllRecords(a) + [] == AllRecords(a);
  }

  /** A group of any other name is passed over wherever it stands. */
  lemma OtherGroupIgnored(a: seq<Group>, group: Group, b: seq<Group>)
    requires OtherName(group)
    ensures DecodeAll(AllRecords(a + [group] + b)) == DecodeAll(AllRecords(a + b))
  {
    OtherEmpty(group);
    MiddleEmpty(a, [group], b);
  }

  lemma {:induction false} OthersEmpty(groups: seq<Group>)
    requires forall k | 0 <= k < |groups| :: OtherName(groups[k])
    ensures AllRecords(groups) == []
  {
    if groups != [] {
      OthersEmpty(groups[..|groups| - 1]);
    }
  }

  // ---- several data blocks ----

  function Flatten(parts: seq<seq<CaptureEvent>>): seq<CaptureEvent> {
    if parts == [] then [] else Flatten(parts[..|parts| - 1]) + parts[|parts| - 1]
  }

  function Payloads(parts: seq<seq<CaptureEvent>>): (blocks: seq<seq<byte>>)
    ensures |blocks| == |parts|
  {
    if parts == [] then [] else Payloads(parts[..|parts| - 1]) + [Payload(parts[|parts| - 1])]
  }

  lemma RecordsAppend(a: seq<seq<byte>>, b: seq<seq<byte>>, front: seq<CaptureEvent>, last: seq<CaptureEvent>)
    requires RecordsOf(a, front) && RecordsOf(b, last)
    ensures RecordsOf(a + b, front + last)
  {
  }

  lemma {:induction false} BlocksHold(parts: seq<seq<CaptureEvent>>)
    ensures RecordsOf(BlockRecords(Payloads(parts), RECORD_SIZE), Flatten(parts))
    decreases |parts|
  {
    if parts != [] {
      var j := |parts| - 1;
      var front, last := parts[..j], parts[j];
      BlocksHold(front);
      PayloadChunks(last);
      assert Payloads(parts)[..j] == Payloads(front);
      RecordsAppend(BlockRecords(Payloads(front), RECORD_SIZE), Chunks(Payload(last), RECORD_SIZE),
                    Flatten(front), last);
    }
  }

  lemma CaptureRecords(a: seq<Group>, group: Group, b: seq<Group>)
    requires forall k | 0 <= k < |a| :: OtherName(a[k])
    requires forall k | 0 <= k < |b| :: OtherName(b[k])
    requires group.name == Some("cantools.capture")
    ensures AllRecords(a + [group] + b) == BlockRecords(group.blocks, group.recordSize)
  {
    OthersEmpty(a);
    OthersEmpty(b);
    AllRecordsAppend(a + [group], b);
    AllRecordsAppend(a, [group]);
    assert [group][..0] == [];
    assert AllRecords([group]) == [] + GroupRecords(group);
  }

  /** The capture group of a file, among any groups of other names and with its records in any
      number of data blocks, gives what a written file gives. */
  lemma CaptureAmongOthers(a: seq<Group>, parts: seq<seq<CaptureEvent>>, b: seq<Group>)
    requires forall k | 0 <= k < |a| :: OtherName(a[k])
    requires forall k | 0 <= k < |b| :: OtherName(b[k])
    ensures var group := Group(Some("cantools.capture"), 116, Payloads(parts));
            var read, events := DecodeAll(AllRecords(a + [group] + b)), Flatten(parts);
            && (read.Success? <==> AllStorable(events))
            && (read.Success? ==> read.value == NormalisedAll(events))
            && (read == Success(events) <==> forall k | 0 <= k < |events| :: Representable(events[k]))
  {
    var group := Group(Some("cantools.capture"), 116, Payloads(parts));
    var records := BlockRecords(Payloads(parts), RECORD_SIZE);
    CaptureRecords(a, group, b);
    BlocksHold(parts);
    DecodeNormalises(records, Flatten(parts));
    DecodeExactIff(records, Flatten(parts));
  }

  // ---- records ----

  lemma SequelEmpty(r: Result<seq<CaptureEvent>, CodecError>)
    ensures Sequel(r, Success([])) == r
  {
    if r.Success? {
      assert r.value + [] == r.value;
    }
  }

  /** A short record is passed over wherever it stands. */
  lemma ShortRecordIgnored(a: seq<seq<byte>>, record: seq<byte>, b: seq<seq<byte>>)
    requires |record| < 116
    ensures DecodeAll(a + [record] + b) == DecodeAll(a + b)
  {
    DecodeAllAppend(a + [record], b);
    DecodeAllAppend(a, [record]);
    DecodeAllAppend(a, b);
    assert [record][..0] == [];
    SequelEmpty(DecodeAll(a));
  }

  /** The first record that cannot be decoded is the error of the whole file. */
  lemma FirstErrorReported(a: seq<seq<byte>>, record: seq<byte>, b: seq<seq<byte>>)
    requires DecodeAll(a).Success? && |record| >= 116 && DecodeRecord(record).Failure?
    ensures DecodeAll(a + [record] + b) == Failure(DecodeRecord(record).error)
  {
    DecodeAllAppend(a + [record], b);
    DecodeAllAppend(a, [record]);
    assert [record][..0] == [];
  }

  /** What follows the 116 bytes of a record is not read. */
  lemma LongRecord(record: seq<byte>, more: seq<byte>)
    requires |record| == 116
    ensures DecodeRecord(record + more) == DecodeRecord(record)
  {
    var r := record + more;
    assert r[..8] == record[..8] && r[8..12] == record[8..12] && r[12..14] == record[12..14];
    assert r[14..18] == record[14..18] && r[20..52] == record[20..52];
    var n := Capped(record[18], MAX_DATA);
    assert r[52..52 + n] == record[52..52 + n];
  }

  /** An incomplete record at the end of a data block is dropped. */
  lemma {:induction false} PartialRecordDropped(payload: seq<byte>, tail: seq<byte>, size: nat)
    requires size > 0 && |payload| % size == 0 && |tail| < size
    ensures Chunks(payload + tail, size) == Chunks(payload, size)
    decreases |payload|
  {
    if |payload| < size {
      assert payload == [] by { ModLessThan(|payload|, size); }
      assert payload + tail == tail;
    } else {
      var rest := payload[size..];
      ModShift(|payload|, size);
      assert (payload + tail)[size..] == rest + tail && (payload + tail)[..size] == payload[..size];
      PartialRecordDropped(rest, tail, size);
    }
  }

  // ---- any record ----

  function RecordFlags(record: seq<byte>): nat
    requires |record| >= 116
  {
    LittleValue(record[12..14])
  }

  function RecordId(record: seq<byte>): nat
    requires |record| >= 116
  {
    LittleValue(record[8..12])
  }

  function RecordLength(record: seq<byte>): (n: nat)
    requires |record| >= 116
    ensures n <= 64
  {
    if record[18] < 64 then record[18] else 64
  }

  lemma FlagBit(flags: nat, mask: nat, k: nat)
    requires mask == Pow2(k)
    ensures Flag(flags, mask) <==> Bit(flags, k) == 1
  {
    FlagSet(flags, k);
  }

  lemma AllFlagBits(flags: nat)
    ensures Flag(flags, FLAG_DIRECTION_TX) <==> Bit(flags, 0) == 1
    ensures Flag(flags, FLAG_REMOTE) <==> Bit(flags, 1) == 1
    ensures Flag(flags, FLAG_ERROR) <==> Bit(flags, 2) == 1
    ensures Flag(flags, FLAG_FD) <==> Bit(flags, 3) == 1
    ensures Flag(flags, FLAG_BRS) <==> Bit(flags, 4) == 1
    ensures Flag(flags, FLAG_ESI) <==> Bit(flags, 5) == 1
    ensures Flag(flags, FLAG_EXTENDED_ID) <==> Bit(flags, 6) == 1
  {
    FlagPowers();
    FlagBit(flags, FLAG_DIRECTION_TX, 0);
    FlagBit(flags, FLAG_REMOTE, 1);
    FlagBit(flags, FLAG_ERROR, 2);
    FlagBit(flags, FLAG_FD, 3);
    FlagBit(flags, FLAG_BRS, 4);
    FlagBit(flags, FLAG_ESI, 5);
    FlagBit(flags, FLAG_EXTENDED_ID, 6);
  }

  /** The identifier of a record fits its format. A standard one is cut to 16 bits before. */
  predicate IdFits(record: seq<byte>)
    requires |record| >= 116
  {
    if Bit(RecordFlags(record), 6) == 1 then RecordId(record) <= 0x1fff_ffff
    else RecordId(record) % 0x1_0000 <= 0x7ff
  }

  predicate LengthFits(record: seq<byte>)
    requires |record| >= 116
  {
    RecordLength(record) <= if Bit(RecordFlags(record), 3) == 1 then 64 else 8
  }

  /** What an event says of the record it was decoded from. */
  predicate FrameOf(frame: CanFrame, record: seq<byte>)
    requires |record| >= 116
  {
    var flags := RecordFlags(record);
    && (frame.id.extended <==> Bit(flags, 6) == 1)
    && frame.id.raw == (if frame.id.extended then RecordId(record) else RecordId(record) % 0x1_0000)
    && (frame.frameClass.Error? <==> Bit(flags, 2) == 1)
    && (frame.frameClass.Remote? <==> Bit(flags, 1) == 1 && Bit(flags, 2) == 0)
    && (frame.fd <==> Bit(flags, 3) == 1)
    && (frame.fdFlags.bitRateSwitch <==> Bit(flags, 4) == 1)
    && (frame.fdFlags.errorStateIndicator <==> Bit(flags, 5) == 1)
    && frame.data == record[52..52 + RecordLength(record)]
  }

  /** The name is made of the bytes before the first zero. */
  predicate NameOf(name: Option<text>, field: seq<byte>) {
    var n := if name.Some? then |name.value| else 0;
    && (name.Some? ==> n > 0)
    && n <= |field|
    && (forall k | 0 <= k < n :: field[k] != 0 && (field[k] < 128 ==> name.value[k] as int == field[k]))
    && (n < |field| ==> field[n] == 0)
  }

  predicate EventOf(e: CaptureEvent, record: seq<byte>)
    requires |record| >= 116
  {
    && e.timestamp.nanos < NANOS
    && e.timestamp.seconds * NANOS + e.timestamp.nanos == LittleValue(record[..8])
    && (e.direction.Tx? <==> Bit(RecordFlags(record), 0) == 1)
    && e.iface.index.Some? && e.iface.index.value == LittleValue(record[14..18])
    && NameOf(e.iface.name, record[20..52])
    && FrameOf(e.frame, record)
    && e.annotations == []
  }

  lemma NameDecodesAs(field: seq<byte>, index: u32)
    ensures NameOf(DecodeInterface(field, index).name, field)
  {
    var before := BeforeNul(field);
    assert |NameText(before)| == |before|;
  }

  lemma TimeDecodesAs(ns: u64)
    ensures NsToTimestamp(ns).nanos < NANOS && NsToTimestamp(ns).seconds * NANOS + NsToTimestamp(ns).nanos == ns
  {
  }

  lemma FrameDecodesAs(record: seq<byte>, data: seq<byte>, raw: u32)
    requires |record| >= 116 && data == record[52..52 + RecordLength(record)] && raw == RecordId(record)
    ensures var frame := DecodeFrame(raw, RecordFlags(record), data);
            && (frame.Success? <==> IdFits(record) && LengthFits(record))
            && (frame.Success? ==> FrameOf(frame.value, record))
  {
    AllFlagBits(RecordFlags(record));
  }

  /** A record of at least 116 bytes decodes exactly if its identifier and its length fit, and
      then to the event whose parts stand at the offsets and bits of the layout. */
  lemma RecordDecodesIff(record: seq<byte>)
    requires |record| >= 116
    ensures DecodeRecord(record).Success? <==> IdFits(record) && LengthFits(record)
    ensures DecodeRecord(record).Success? ==> EventOf(DecodeRecord(record).value, record)
  {
    Widths();
    LittleBelow(record[8..12]);
    LittleBelow(record[..8]);
    LittleBelow(record[14..18]);
    FrameDecodesAs(record, record[52..52 + RecordLength(record)], RecordId(record));
    NameDecodesAs(record[20..52], LittleValue(record[14..18]));
    TimeDecodesAs(LittleValue(record[..8]));
    AllFlagBits(RecordFlags(record));
  }

  // ---- the other values of a written file ----

  lemma StartKept(a: seq<byte>, b: seq<byte>)
    requires |a| >= 8
    ensures (a + b)[..8] == a[..8]
  {
  }

  lemma OnePayload(events: seq<CaptureEvent>)
    requires |events| == 1
    ensures Payload(events) == RecordBytes(events[0])
  {
    assert events[..0] == [];
    assert Payload([]) == [];
    assert [] + RecordBytes(events[0]) == RecordBytes(events[0]);
  }

  lemma {:induction false} PayloadStarts(events: seq<CaptureEvent>)
    requires events != []
    ensures |Payload(events)| >= 116 && Payload(events)[..8] == RecordBytes(events[0])[..8]
    decreases |events|
  {
    var j := |events| - 1;
    if j == 0 {
      OnePayload(events);
    } else {
      var front, last := events[..j], events[j];
      PayloadStarts(front);
      assert events[0] == front[0];
      StartKept(Payload(front), RecordBytes(last));
    }
  }

  /** The start time of the file is the time of its first record, or 0 without one, and the
      capture group counts the records of the data block. */
  lemma HeaderDescribesRecords(s: Sizes, defs: seq<ChannelDef>, events: seq<CaptureEvent>)
    requires s.Valid()
    ensures var file, k := Written(s, defs, events), 6 + 2 * |defs|;
            && file[1].Header? && file[2].ChannelGroup? && file[k].DataBlock?
            && file[1].absTime == (if events == [] then 0 else LittleValue(Payload(events)[..8]))
            && file[k].payload == Payload(events)
            && file[2].cycles == |Chunks(file[k].payload, file[2].samplesBytes)|
  {
    PreambleBlocks(s, defs, events);
    PayloadChunks(events);
    if events != [] {
      PayloadStarts(events);
      RecordFields(events[0]);
    }
  }
}
