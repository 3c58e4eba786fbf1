/** The fixed 116-byte record of a capture event in an MF4 file. */
module Mf4Record {
  import opened Bits
  import opened Wrappers
  import opened Core
  import opened SignalBits

  const RECORD_SIZE: nat := 116
  const INTERFACE_NAME_LEN: nat := 32
  const MAX_DATA: nat := 64

  datatype CodecError = CoreFailure(error: CoreError)

  // ---- times ----

  /** Nanoseconds since the epoch in a 64-bit word; negative seconds count as zero. */
  function TimestampToNs(t: Timestamp): u64 {
    ((if t.seconds < 0 then 0 else t.seconds) * NANOS + t.nanos) % TWO_TO_THE_64
  }

  function NsToTimestamp(ns: u64): Timestamp {
    Timestamp(ns / NANOS, ns % NANOS)
  }

  predicate RepresentableTime(t: Timestamp) {
    t.seconds >= 0 && t.nanos < NANOS && t.seconds * NANOS + t.nanos < TWO_TO_THE_64
  }

  lemma TimeRoundTripIff(t: Timestamp)
    ensures NsToTimestamp(TimestampToNs(t)) == t <==> RepresentableTime(t)
  {
  }

  /** Whole seconds before the epoch are lost, and what exceeds 64 bits wraps around. */
  lemma TimeWritten(t: Timestamp)
    ensures t.seconds < 0 ==> TimestampToNs(t) == t.nanos
    ensures t.seconds >= 0 ==> (TimestampToNs(t) - (t.seconds * NANOS + t.nanos)) % TWO_TO_THE_64 == 0
  {
    if t.seconds >= 0 {
      ModDiffers(t.seconds * NANOS + t.nanos, TWO_TO_THE_64);
    }
  }

  lemma ModDiffers(x: nat, d: nat)
    requires d > 0
    ensures (x % d - x) % d == 0
  {
    assert x == x / d * d + x % d;
    assert x % d - x == (-(x / d)) * d;
    DivModUnique(x % d - x, d, -(x / d), 0);
  }

  // ---- fields ----

  /** `to_le_bytes` for an `n`-byte integer. */
  function LeBytes(x: nat, n: nat): (b: seq<byte>)
    ensures |b| == n
  {
    if n == 0 then [] else [x % 256] + LeBytes(x / 256, n - 1)
  }

  function Pow256(n: nat): (p: nat)
    ensures p >= 1
  {
    if n == 0 then 1 else 256 * Pow256(n - 1)
  }

  lemma {:induction false} LeRoundTrip(x: nat, n: nat)
    requires x < Pow256(n)
    ensures LittleValue(LeBytes(x, n)) == x
  {
    if n > 0 {
      LeRoundTrip(x / 256, n - 1);
    }
  }

  /** The first `n` bytes, filled up with zeros. */
  function Padded(bytes: seq<byte>, n: nat): (p: seq<byte>)
    ensures |p| == n
  {
    if |bytes| >= n then bytes[..n] else bytes + Zeros(n - |bytes|)
  }

  function NameBytes(name: text): (b: seq<byte>)
    ensures |b| == |name|
  {
    seq(|name|, k requires 0 <= k < |name| => name[k] as int)
  }

  /** The name read back from its bytes; a byte outside ASCII becomes a question mark. */
  function NameText(bytes: seq<byte>): (t: text)
    ensures |t| == |bytes|
  {
    seq(|bytes|, k requires 0 <= k < |bytes| => if bytes[k] < 128 then bytes[k] as char else '?')
  }

  /** The bytes before the first zero. */
  function BeforeNul(bytes: seq<byte>): (r: seq<byte>)
    ensures |r| <= |bytes| && r == bytes[..|r|]
    ensures forall k | 0 <= k < |r| :: r[k] != 0
    ensures |r| < |bytes| ==> bytes[|r|] == 0
  {
    if bytes == [] || bytes[0] == 0 then [] else [bytes[0]] + BeforeNul(bytes[1..])
  }

  function One(b: bool): nat {
    if b then 1 else 0
  }

  function InterfaceName(iface: InterfaceRef): text {
    iface.name.GetOr([])
  }

  // ---- flags ----

  const FLAG_DIRECTION_TX: nat := 0x0001
  const FLAG_REMOTE: nat := 0x0002
  const FLAG_ERROR: nat := 0x0004
  const FLAG_FD: nat := 0x0008
  const FLAG_BRS: nat := 0x0010
  const FLAG_ESI: nat := 0x0020
  const FLAG_EXTENDED_ID: nat := 0x0040

  function Flags(e: CaptureEvent): (f: nat)
    ensures f < 128
  {
    One(e.direction.Tx?) + 2 * One(e.frame.frameClass.Remote?) + 4 * One(e.frame.frameClass.Error?)
    + 8 * One(e.frame.fd) + 16 * One(e.frame.fdFlags.bitRateSwitch)
    + 32 * One(e.frame.fdFlags.errorStateIndicator) + 64 * One(e.frame.id.extended)
  }

  /** `if set { flags |= 1 << k }` for a bit above all those set so far. */
  lemma OrFlag(flags: nat, k: nat)
    requires flags < Pow2(k)
    ensures Or(flags, Pow2(k)) == flags + Pow2(k)
  {
    ShlIsTimes(1, k);
    OrShifted(flags, 1, k);
  }

  lemma FlagPowers()
    ensures Pow2(0) == FLAG_DIRECTION_TX && Pow2(1) == FLAG_REMOTE && Pow2(2) == FLAG_ERROR && Pow2(3) == FLAG_FD
    ensures Pow2(4) == FLAG_BRS && Pow2(5) == FLAG_ESI && Pow2(6) == FLAG_EXTENDED_ID
  {
  }

  lemma FlagSet(flags: nat, k: nat)
    ensures And(flags, Pow2(k)) != 0 <==> Bit(flags, k) == 1
  {
    assert Pow2(1) == 2;
    AndField(flags, k, 1);
    ShlIsTimes(1, k);
    ShlIsTimes(Bit(flags, k), k);
  }

  // ---- encoding ----

  function Capped(n: nat, limit: nat): nat {
    if n < limit then n else limit
  }

  /** Time, identifier, flags, interface index and data length. */
  function Head(e: CaptureEvent): (r: seq<byte>)
    ensures |r| == 19
  {
    LeBytes(TimestampToNs(e.timestamp), 8)
    + LeBytes(e.frame.id.raw, 4)
    + LeBytes(Flags(e), 2)
    + LeBytes(e.iface.index.GetOr(0), 4)
    + [Capped(|e.frame.data|, MAX_DATA)]
  }

  /** The layout: the head, one reserved byte, the interface name and the data. */
  function RecordBytes(e: CaptureEvent): (r: seq<byte>)
    ensures |r| == RECORD_SIZE
  {
    Head(e) + [0] + Padded(NameBytes(InterfaceName(e.iface)), INTERFACE_NAME_LEN) + Padded(e.frame.data, MAX_DATA)
  }

  function RecordNotes(e: CaptureEvent, index: nat): seq<FidelityNote> {
    (if |InterfaceName(e.iface)| > INTERFACE_NAME_LEN then [FidelityNote(Some(index), NameNote)] else [])
    + if e.annotations != [] then [FidelityNote(Some(index), AnnotationsNote)] else []
  }

  method CopyFromSlice(record: array<byte>, at: nat, bytes: seq<byte>)
    requires at + |bytes| <= record.Length
    modifies record
    ensures record[..] == old(record[..])[..at] + bytes + old(record[..])[at + |bytes|..]
  {
    forall k | 0 <= k < |bytes| {
      record[at + k] := bytes[k];
    }
  }

  /** Copies bytes into a record that is zero from the end of `done` on. */
  method Put(record: array<byte>, ghost done: seq<byte>, at: nat, bytes: seq<byte>) returns (ghost grown: seq<byte>)
    requires |done| <= at && at + |bytes| <= record.Length
    requires record[..] == done + Zeros(record.Length - |done|)
    modifies record
    ensures grown == done + Zeros(at - |done|) + bytes
    ensures record[..] == grown + Zeros(record.Length - |grown|)
  {
    CopyFromSlice(record, at, bytes);
    grown := done + Zeros(at - |done|) + bytes;
  }

  method EncodeFlags(e: CaptureEvent) returns (flags: nat)
    ensures flags == Flags(e)
  {
    FlagPowers();
    flags := 0;
    if e.direction.Tx? {
      OrFlag(flags, 0);
      flags := Or(flags, FLAG_DIRECTION_TX);
    }
    assert flags == One(e.direction.Tx?);
    if e.frame.frameClass == Remote {
      OrFlag(flags, 1);
      flags := Or(flags, FLAG_REMOTE);
    }
    assert flags == One(e.direction.Tx?) + 2 * One(e.frame.frameClass.Remote?);
    if e.frame.frameClass == Error {
      OrFlag(flags, 2);
      flags := Or(flags, FLAG_ERROR);
    }
    ghost var kind := One(e.direction.Tx?) + 2 * One(e.frame.frameClass.Remote?) + 4 * One(e.frame.frameClass.Error?);
    assert flags == kind;
    if e.frame.fd {
      OrFlag(flags, 3);
      flags := Or(flags, FLAG_FD);
    }
    assert flags == kind + 8 * One(e.frame.fd);
    if e.frame.fdFlags.bitRateSwitch {
      OrFlag(flags, 4);
      flags := Or(flags, FLAG_BRS);
    }
    assert flags == kind + 8 * One(e.frame.fd) + 16 * One(e.frame.fdFlags.bitRateSwitch);
    if e.frame.fdFlags.errorStateIndicator {
      OrFlag(flags, 5);
      flags := Or(flags, FLAG_ESI);
    }
    ghost var fd := 8 * One(e.frame.fd) + 16 * One(e.frame.fdFlags.bitRateSwitch)
      + 32 * One(e.frame.fdFlags.errorStateIndicator);
    assert flags == kind + fd;
    if e.frame.id.extended {
      OrFlag(flags, 6);
      flags := Or(flags, FLAG_EXTENDED_ID);
    }
  }

  /** Writes a field right after the previous one. */
  method PutNext(record: array<byte>, ghost done: seq<byte>, at: nat, bytes: seq<byte>) returns (ghost grown: seq<byte>)
    requires |done| == at && at + |bytes| <= record.Length
    requires record[..] == done + Zeros(record.Length - |done|)
    modifies record
    ensures grown == done + bytes
    ensures record[..] == grown + Zeros(record.Length - |grown|)
  {
    grown := Put(record, done, at, bytes);
    assert done + Zeros(0) == done;
  }

  method EncodeTimeAndId(e: CaptureEvent, record: array<byte>) returns (ghost done: seq<byte>)
    requires record[..] == Zeros(record.Length) && record.Length == RECORD_SIZE
    modifies record
    ensures done == LeBytes(TimestampToNs(e.timestamp), 8) + LeBytes(e.frame.id.raw, 4)
    ensures record[..] == done + Zeros(RECORD_SIZE - 12)
  {
    var time, id := LeBytes(TimestampToNs(e.timestamp), 8), LeBytes(e.frame.id.raw, 4);
    done := PutNext(record, [], 0, time);
    done := PutNext(record, done, 8, id);
  }

  method EncodeHead(e: CaptureEvent, record: array<byte>)
    requires record[..] == Zeros(record.Length) && record.Length == RECORD_SIZE
    modifies record
    ensures record[..] == Head(e) + Zeros(RECORD_SIZE - 19)
  {
    ghost var done := EncodeTimeAndId(e, record);
    var flagWord := EncodeFlags(e);
    var flags, ifindex := LeBytes(flagWord, 2), LeBytes(e.iface.index.GetOr(0), 4);
    done := PutNext(record, done, 12, flags);
    done := PutNext(record, done, 14, ifindex);
    done := PutNext(record, done, 18, [Capped(|e.frame.data|, MAX_DATA)]);
  }

  /** Copies at most `limit` bytes to `at`, which leaves the whole field zero-padded. */
  method PutPadded(record: array<byte>, ghost done: seq<byte>, at: nat, bytes: seq<byte>, limit: nat)
    returns (ghost grown: seq<byte>)
    requires |done| <= at && at + limit <= record.Length
    requires record[..] == done + Zeros(record.Length - |done|)
    modifies record
    ensures grown == done + Zeros(at - |done|) + Padded(bytes, limit)
    ensures record[..] == grown + Zeros(record.Length - |grown|)
  {
    var kept := bytes[..Capped(|bytes|, limit)];
    grown := Put(record, done, at, kept);
    assert Padded(bytes, limit) == kept + Zeros(limit - |kept|);
    grown := done + Zeros(at - |done|) + Padded(bytes, limit);
  }

  /** Encodes one event, adding a note for each kind of loss it knows of. */
  method EncodeRecord(e: CaptureEvent, notes: seq<FidelityNote>, index: nat)
    returns (record: array<byte>, notes': seq<FidelityNote>)
    ensures fresh(record) && record[..] == RecordBytes(e)
    ensures notes' == notes + RecordNotes(e, index)
  {
    notes' := notes;
    record := new byte[RECORD_SIZE](_ => 0);
    EncodeHead(e, record);
    var nameBytes := NameBytes(InterfaceName(e.iface));
    if |nameBytes| > INTERFACE_NAME_LEN {
      notes' := notes' + [FidelityNote(Some(index), NameNote)];
    }
    ghost var done := PutPadded(record, Head(e), 20, nameBytes, INTERFACE_NAME_LEN);
    assert Zeros(1) == [0];
    done := PutPadded(record, done, 52, e.frame.data, MAX_DATA);
    assert done == RecordBytes(e);
    if e.annotations != [] {
      notes' := notes' + [FidelityNote(Some(index), AnnotationsNote)];
    }
  }

  // ---- decoding ----

  /** `from_le_bytes`. */
  function FromLe(bytes: seq<byte>): (x: nat)
    ensures x < Pow256(|bytes|)
  {
    LittleBelow(bytes);
    LittleValue(bytes)
  }

  lemma {:induction false} LittleBelow(bytes: seq<byte>)
    ensures LittleValue(bytes) < Pow256(|bytes|)
  {
    if bytes != [] {
      LittleBelow(bytes[1..]);
    }
  }

  lemma Widths()
    ensures Pow256(2) == 0x1_0000 && Pow256(4) == TWO_TO_THE_32 && Pow256(8) == TWO_TO_THE_64
  {
  }

  predicate Flag(flags: nat, mask: nat) {
    And(flags, mask) != 0
  }

  function DecodeId(raw: u32, flags: nat): Result<CanId, CoreError> {
    if Flag(flags, FLAG_EXTENDED_ID) then Extended(raw) else Standard(raw % 0x1_0000)
  }

  function DecodeClass(flags: nat): FrameClass {
    if Flag(flags, FLAG_ERROR) then Error else if Flag(flags, FLAG_REMOTE) then Remote else Data
  }

  function DecodeFrame(raw: u32, flags: nat, data: seq<byte>): Result<CanFrame, CoreError> {
    var id := DecodeId(raw, flags);
    if id.Failure? then Failure(id.error)
    else NewFrame(id.value, DecodeClass(flags), data, Flag(flags, FLAG_FD),
                  FdFlags(Flag(flags, FLAG_BRS), Flag(flags, FLAG_ESI)))
  }

  function DecodeInterface(field: seq<byte>, ifindex: u32): InterfaceRef {
    var name := NameText(BeforeNul(field));
    InterfaceRef(if name == [] then None else Some(name), Some(ifindex))
  }

  function DecodeFields(ns: u64, raw: u32, flags: nat, ifindex: u32, name: seq<byte>, data: seq<byte>)
    : Result<CaptureEvent, CodecError>
  {
    var frame := DecodeFrame(raw, flags, data);
    if frame.Failure? then Failure(CoreFailure(frame.error))
    else Success(NewEvent(
      NsToTimestamp(ns),
      DecodeInterface(name, ifindex),
      if Flag(flags, FLAG_DIRECTION_TX) then Tx else Rx,
      frame.value))
  }

  function DecodeRecord(record: seq<byte>): Result<CaptureEvent, CodecError>
    requires |record| >= RECORD_SIZE
  {
    Widths();
    var dataLen := Capped(record[18], MAX_DATA);
    DecodeFields(
      FromLe(record[..8]),
      FromLe(record[8..12]),
      FromLe(record[12..14]),
      FromLe(record[14..18]),
      record[20..20 + INTERFACE_NAME_LEN],
      record[52..52 + dataLen])
  }

  // ---- what a record keeps of an event ----

  /** The event as it comes back from its record. */
  function Normalised(e: CaptureEvent): CaptureEvent {
    CaptureEvent(
      NsToTimestamp(TimestampToNs(e.timestamp)),
      InterfaceRef(NormalisedName(e.iface), Some(e.iface.index.GetOr(0))),
      e.direction,
      e.frame.(data := e.frame.data[..Capped(|e.frame.data|, MAX_DATA)]),
      [])
  }

  function NormalisedName(iface: InterfaceRef): Option<text> {
    var name := InterfaceName(iface);
    var kept := BeforeNulText(name[..Capped(|name|, INTERFACE_NAME_LEN)]);
    if kept == [] then None else Some(kept)
  }

  function BeforeNulText(name: text): (r: text)
    ensures |r| <= |name| && r == name[..|r|]
    ensures forall k | 0 <= k < |r| :: r[k] != 0 as char
    ensures |r| < |name| ==> name[|r|] == 0 as char
  {
    if name == [] || name[0] == 0 as char then [] else [name[0]] + BeforeNulText(name[1..])
  }

  /** Splits the flag word into its lowest bit and the rest. */
  lemma LowFlag(flags: nat, b: nat, rest: nat)
    requires b <= 1 && flags == b + 2 * rest
    ensures flags % 2 == b && flags / 2 == rest
  {
  }

  lemma FlagBits(b0: nat, b1: nat, b2: nat, b3: nat, b4: nat, b5: nat, b6: nat, flags: nat)
    requires b0 <= 1 && b1 <= 1 && b2 <= 1 && b3 <= 1 && b4 <= 1 && b5 <= 1 && b6 <= 1
    requires flags == b0 + 2 * (b1 + 2 * (b2 + 2 * (b3 + 2 * (b4 + 2 * (b5 + 2 * b6)))))
    ensures Bit(flags, 0) == b0 && Bit(flags, 1) == b1 && Bit(flags, 2) == b2 && Bit(flags, 3) == b3
    ensures Bit(flags, 4) == b4 && Bit(flags, 5) == b5 && Bit(flags, 6) == b6
  {
    var f1 := b1 + 2 * (b2 + 2 * (b3 + 2 * (b4 + 2 * (b5 + 2 * b6))));
    var f2 := b2 + 2 * (b3 + 2 * (b4 + 2 * (b5 + 2 * b6)));
    var f3 := b3 + 2 * (b4 + 2 * (b5 + 2 * b6));
    var f4 := b4 + 2 * (b5 + 2 * b6);
    LowFlag(flags, b0, f1);
    LowFlag(f1, b1, f2);
    LowFlag(f2, b2, f3);
    LowFlag(f3, b3, f4);
    LowFlag(f4, b4, b5 + 2 * b6);
    LowFlag(b5 + 2 * b6, b5, b6);
    ShrSteps(flags, f1, f2, f3, f4, b5 + 2 * b6, b6);
  }

  lemma ShrSteps(f: nat, f1: nat, f2: nat, f3: nat, f4: nat, f5: nat, f6: nat)
    requires f / 2 == f1 && f1 / 2 == f2 && f2 / 2 == f3 && f3 / 2 == f4 && f4 / 2 == f5 && f5 / 2 == f6
    ensures Shr(f, 0) == f && Shr(f, 1) == f1 && Shr(f, 2) == f2 && Shr(f, 3) == f3
    ensures Shr(f, 4) == f4 && Shr(f, 5) == f5 && Shr(f, 6) == f6
  {
    ShrTwice(f, 1, 1);
    ShrTwice(f, 2, 1);
    ShrTwice(f, 3, 1);
    ShrTwice(f, 4, 1);
    ShrTwice(f, 5, 1);
  }

  lemma FlagWordBits(e: CaptureEvent)
    ensures Bit(Flags(e), 0) == One(e.direction.Tx?)
    ensures Bit(Flags(e), 1) == One(e.frame.frameClass.Remote?) && Bit(Flags(e), 2) == One(e.frame.frameClass.Error?)
    ensures Bit(Flags(e), 3) == One(e.frame.fd) && Bit(Flags(e), 4) == One(e.frame.fdFlags.bitRateSwitch)
    ensures Bit(Flags(e), 5) == One(e.frame.fdFlags.errorStateIndicator) && Bit(Flags(e), 6) == One(e.frame.id.extended)
  {
    FlagBits(One(e.direction.Tx?), One(e.frame.frameClass.Remote?), One(e.frame.frameClass.Error?), One(e.frame.fd),
             One(e.frame.fdFlags.bitRateSwitch), One(e.frame.fdFlags.errorStateIndicator),
             One(e.frame.id.extended), Flags(e));
  }

  lemma TxDecodes(e: CaptureEvent)
    ensures Flag(Flags(e), FLAG_DIRECTION_TX) <==> e.direction.Tx?
  {
    FlagPowers();
    FlagWordBits(e);
    FlagSet(Flags(e), 0);
  }

  lemma ClassAndIdDecode(e: CaptureEvent)
    ensures DecodeClass(Flags(e)) == e.frame.frameClass
    ensures DecodeId(e.frame.id.raw, Flags(e)) == Success(e.frame.id)
  {
    FlagPowers();
    FlagWordBits(e);
    FlagSet(Flags(e), 1);
    FlagSet(Flags(e), 2);
    FlagSet(Flags(e), 6);
  }

  lemma FdDecodes(e: CaptureEvent)
    ensures Flag(Flags(e), FLAG_FD) <==> e.frame.fd
    ensures FdFlags(Flag(Flags(e), FLAG_BRS), Flag(Flags(e), FLAG_ESI)) == e.frame.fdFlags
  {
    FlagPowers();
    FlagWordBits(e);
    FlagSet(Flags(e), 3);
    FlagSet(Flags(e), 4);
    FlagSet(Flags(e), 5);
  }

  /** The frame read back from the fields of a record. */
  lemma FrameDecodes(e: CaptureEvent, data: seq<byte>)
    requires data == e.frame.data[..Capped(|e.frame.data|, MAX_DATA)]
    ensures DecodeFrame(e.frame.id.raw, Flags(e), data)
         == if !e.frame.fd && |e.frame.data| > 8
            then Failure(InvalidPayloadLength(|data|, 8, false))
            else Success(e.frame.(data := data))
  {
    ClassAndIdDecode(e);
    FdDecodes(e);
  }

  lemma {:induction false} NulStops(name: text, field: seq<byte>)
    requires |name| <= |field|
    requires forall k | 0 <= k < |name| :: field[k] == name[k] as int
    requires |name| < |field| ==> field[|name|] == 0
    ensures NameText(BeforeNul(field)) == BeforeNulText(name)
    decreases |name|
  {
    if name != [] && name[0] != 0 as char {
      NulStops(name[1..], field[1..]);
    }
  }

  lemma NameDecodes(iface: InterfaceRef, ifindex: u32)
    ensures DecodeInterface(Padded(NameBytes(InterfaceName(iface)), INTERFACE_NAME_LEN), ifindex)
         == InterfaceRef(NormalisedName(iface), Some(ifindex))
  {
    var name := InterfaceName(iface);
    var field := Padded(NameBytes(name), INTERFACE_NAME_LEN);
    NulStops(name[..Capped(|name|, INTERFACE_NAME_LEN)], field);
  }

  lemma HeadFields(e: CaptureEvent)
    ensures Head(e)[..8] == LeBytes(TimestampToNs(e.timestamp), 8)
    ensures Head(e)[8..12] == LeBytes(e.frame.id.raw, 4)
    ensures Head(e)[12..14] == LeBytes(Flags(e), 2)
    ensures Head(e)[14..18] == LeBytes(e.iface.index.GetOr(0), 4)
    ensures Head(e)[18] == Capped(|e.frame.data|, MAX_DATA)
  {
  }

  lemma RecordFields(e: CaptureEvent)
    ensures var r := RecordBytes(e);
            && FromLe(r[..8]) == TimestampToNs(e.timestamp)
            && FromLe(r[8..12]) == e.frame.id.raw
            && FromLe(r[12..14]) == Flags(e)
            && FromLe(r[14..18]) == e.iface.index.GetOr(0)
            && r[18] == Capped(|e.frame.data|, MAX_DATA)
  {
    var r := RecordBytes(e);
    HeadFields(e);
    Widths();
    assert r[..8] == Head(e)[..8] && r[8..12] == Head(e)[8..12] && r[12..14] == Head(e)[12..14];
    assert r[14..18] == Head(e)[14..18];
    LeRoundTrip(TimestampToNs(e.timestamp), 8);
    LeRoundTrip(e.frame.id.raw, 4);
    LeRoundTrip(Flags(e), 2);
    LeRoundTrip(e.iface.index.GetOr(0), 4);
  }

  lemma RecordTail(e: CaptureEvent)
    ensures var r := RecordBytes(e);
            var length := Capped(|e.frame.data|, MAX_DATA);
            && r[20..52] == Padded(NameBytes(InterfaceName(e.iface)), INTERFACE_NAME_LEN)
            && r[52..52 + length] == e.frame.data[..length]
  {
  }

  lemma FieldsDecode(e: CaptureEvent, data: seq<byte>)
    requires data == e.frame.data[..Capped(|e.frame.data|, MAX_DATA)]
    ensures DecodeFields(TimestampToNs(e.timestamp), e.frame.id.raw, Flags(e), e.iface.index.GetOr(0),
                         Padded(NameBytes(InterfaceName(e.iface)), INTERFACE_NAME_LEN), data)
         == if !e.frame.fd && |e.frame.data| > 8
            then Failure(CoreFailure(InvalidPayloadLength(|data|, 8, false)))
            else Success(Normalised(e))
  {
    FrameDecodes(e, data);
    TxDecodes(e);
    NameDecodes(e.iface, e.iface.index.GetOr(0));
  }

  /** Decoding an encoded event always succeeds, with the normalised event, unless its frame
      is a classic one with more than 8 bytes. */
  lemma DecodeEncoded(e: CaptureEvent)
    ensures DecodeRecord(RecordBytes(e))
         == if !e.frame.fd && |e.frame.data| > 8
            then Failure(CoreFailure(InvalidPayloadLength(Capped(|e.frame.data|, MAX_DATA), 8, false)))
            else Success(Normalised(e))
  {
    RecordFields(e);
    RecordTail(e);
    FieldsDecode(e, e.frame.data[..Capped(|e.frame.data|, MAX_DATA)]);
  }

  /** What a caller can check to know that nothing of the event is lost. */
  predicate Representable(e: CaptureEvent) {
    && RepresentableTime(e.timestamp)
    && e.iface.index.Some?
    && (e.iface.name.Some? ==> RepresentableName(e.iface.name.value))
    && e.annotations == []
    && e.frame.Valid()
  }

  predicate RepresentableName(name: text) {
    name != [] && |name| <= INTERFACE_NAME_LEN && forall k | 0 <= k < |name| :: name[k] != 0 as char
  }

  lemma NameRoundTripIff(iface: InterfaceRef)
    ensures NormalisedName(iface) == iface.name <==> (iface.name.Some? ==> RepresentableName(iface.name.value))
  {
    var name := InterfaceName(iface);
    var cut := name[..Capped(|name|, INTERFACE_NAME_LEN)];
    var kept := BeforeNulText(cut);
    if iface.name.Some? && RepresentableName(name) {
      assert cut == name && kept == name;
    }
  }

  /** A record gives back its event exactly when the event is representable. */
  lemma RecordRoundTripIff(e: CaptureEvent)
    ensures DecodeRecord(RecordBytes(e)) == Success(e) <==> Representable(e)
  {
    DecodeEncoded(e);
    TimeRoundTripIff(e.timestamp);
    NameRoundTripIff(e.iface);
    if e.frame.Valid() {
      assert e.frame.data[..Capped(|e.frame.data|, MAX_DATA)] == e.frame.data;
    }
  }

  /** The losses that go without a note. A name that is too long has one. */
  predicate SilentLoss(e: CaptureEvent) {
    || !RepresentableTime(e.timestamp)
    || e.iface.index.None?
    || (e.iface.name.Some? && |e.iface.name.value| <= INTERFACE_NAME_LEN && !RepresentableName(e.iface.name.value))
    || !e.frame.Valid()
  }

  lemma RecordNoted(e: CaptureEvent, index: nat)
    ensures Noted(RecordNotes(e, index), index, NameNote) <==> |InterfaceName(e.iface)| > INTERFACE_NAME_LEN
    ensures Noted(RecordNotes(e, index), index, AnnotationsNote) <==> e.annotations != []
    ensures !Noted(RecordNotes(e, index), index, IndexNote) && !Noted(RecordNotes(e, index), index, ClassNote)
  {
  }

  lemma FrameKeptIff(frame: CanFrame)
    requires frame.fd || |frame.data| <= 8
    ensures frame.(data := frame.data[..Capped(|frame.data|, MAX_DATA)]) == frame <==> frame.Valid()
  {
    if frame.Valid() {
      assert frame.data[..Capped(|frame.data|, MAX_DATA)] == frame.data;
    }
  }

  lemma PartsNotedIff(e: CaptureEvent, index: nat, notes: seq<FidelityNote>)
    requires forall field :: Noted(notes, index, field) <==> Noted(RecordNotes(e, index), index, field)
    ensures (DecodeRecord(RecordBytes(e)).Success?
              && LossesNoted(e, DecodeRecord(RecordBytes(e)).value, index, notes))
       <==> !SilentLoss(e)
  {
    DecodeEncoded(e);
    RecordNoted(e, index);
    TimeRoundTripIff(e.timestamp);
    NameRoundTripIff(e.iface);
    if e.frame.fd || |e.frame.data| <= 8 {
      FrameKeptIff(e.frame);
    }
  }

  /** A record keeps every part of its event or has a note for that part, as the design
      promises, exactly when none of the silent losses occurs. */
  lemma NotedUnlessSilent(e: CaptureEvent, index: nat)
    ensures (DecodeRecord(RecordBytes(e)).Success?
              && LossesNoted(e, DecodeRecord(RecordBytes(e)).value, index, RecordNotes(e, index)))
       <==> !SilentLoss(e)
  {
    PartsNotedIff(e, index, RecordNotes(e, index));
  }
}
