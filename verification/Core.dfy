/** The portable CAN model: validated identifiers and frames, and capture events. */
module Core {
  import opened Bits
  import opened Wrappers

  type u16 = x: int | 0 <= x < 0x1_0000
  type u32 = x: int | 0 <= x < 0x1_0000_0000
  type u64 = x: int | 0 <= x < 0x1_0000_0000_0000_0000
  type i64 = x: int | -0x8000_0000_0000_0000 <= x < 0x8000_0000_0000_0000

  // Interface names and log text are modelled as ASCII.
  type ascii = c: char | c as int < 128 witness 'a'
  type text = seq<ascii>

  const MAX_STANDARD_ID: nat := 0x7ff
  const MAX_EXTENDED_ID: nat := 0x1fff_ffff

  datatype CoreError =
    | InvalidCanId(value: u32, extended: bool)
    | InvalidPayloadLength(length: nat, max: nat, fd: bool)

  datatype RawCanId = CanId(raw: u32, extended: bool) {
    predicate Valid() {
      raw <= if extended then MAX_EXTENDED_ID else MAX_STANDARD_ID
    }
  }

  // The fields are private in the source, so only the two constructors make identifiers.
  type CanId = id: RawCanId | id.Valid() witness CanId(0, false)

  function Standard(raw: u16): (r: Result<CanId, CoreError>)
    ensures r.Success? <==> raw < 0x800
    ensures r.Success? ==> r.value.raw == raw && !r.value.extended
  {
    if raw > MAX_STANDARD_ID then Failure(InvalidCanId(raw, false))
    else Success(CanId(raw, false))
  }

  function Extended(raw: u32): (r: Result<CanId, CoreError>)
    ensures r.Success? <==> raw < 0x2000_0000
    ensures r.Success? ==> r.value.raw == raw && r.value.extended
  {
    if raw > MAX_EXTENDED_ID then Failure(InvalidCanId(raw, true))
    else Success(CanId(raw, true))
  }

  datatype FrameClass = Data | Remote | Error

  datatype FdFlags = FdFlags(bitRateSwitch: bool, errorStateIndicator: bool)

  const DEFAULT_FD_FLAGS := FdFlags(false, false)

  /** Frame fields are public in the source, so validity is a separate predicate. */
  datatype CanFrame = CanFrame(
    id: CanId,
    frameClass: FrameClass,
    data: seq<byte>,
    fd: bool,
    fdFlags: FdFlags
  ) {
    predicate Valid() {
      |data| <= MaxData(fd)
    }
  }

  function MaxData(fd: bool): nat {
    if fd then 64 else 8
  }

  function NewFrame(id: CanId, frameClass: FrameClass, data: seq<byte>, fd: bool, fdFlags: FdFlags)
    : (r: Result<CanFrame, CoreError>)
    ensures r.Success? <==> |data| <= if fd then 64 else 8
    ensures r.Success? ==> r.value.Valid() && r.value.data == data && r.value.id == id && r.value.fd == fd
    ensures r.Success? ==> r.value.frameClass == frameClass && r.value.fdFlags == fdFlags
    ensures r.Failure? ==> r.error == InvalidPayloadLength(|data|, if fd then 64 else 8, fd)
  {
    if |data| > MaxData(fd) then Failure(InvalidPayloadLength(|data|, MaxData(fd), fd))
    else Success(CanFrame(id, frameClass, data, fd, fdFlags))
  }

  const NANOS: nat := 1_000_000_000

  datatype Timestamp = Timestamp(seconds: i64, nanos: u32)

  datatype InterfaceRef = InterfaceRef(name: Option<text>, index: Option<u32>)

  datatype Direction = Rx | Tx

  datatype Annotation = Annotation(key: text, value: text)

  datatype CaptureEvent = CaptureEvent(
    timestamp: Timestamp,
    iface: InterfaceRef,
    direction: Direction,
    frame: CanFrame,
    annotations: seq<Annotation>
  )

  function NewEvent(timestamp: Timestamp, iface: InterfaceRef, direction: Direction, frame: CanFrame)
    : CaptureEvent
  {
    CaptureEvent(timestamp, iface, direction, frame, [])
  }

  /** A note about information a file format could not hold. */
  datatype NoteField = LineNote | IndexNote | NameNote | AnnotationsNote | ClassNote

  datatype FidelityNote = FidelityNote(eventIndex: Option<nat>, field: NoteField)

  predicate Noted(notes: seq<FidelityNote>, index: nat, field: NoteField) {
    FidelityNote(Some(index), field) in notes
  }

  /** Each part of the event that was read is as it was written, or a note of its own says
      that it was lost. There is no note for a time or a direction. */
  predicate LossesNoted(e: CaptureEvent, read: CaptureEvent, index: nat, notes: seq<FidelityNote>) {
    && read.timestamp == e.timestamp
    && (read.iface.name == e.iface.name || Noted(notes, index, NameNote))
    && (read.iface.index == e.iface.index || Noted(notes, index, IndexNote))
    && read.direction == e.direction
    && (read.frame == e.frame || Noted(notes, index, ClassNote))
    && (read.annotations == e.annotations || Noted(notes, index, AnnotationsNote))
  }
}
