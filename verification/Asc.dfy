/** The ASC text log: writing capture events as lines and parsing lines back. */
module Asc {
  import opened Binary64
  import opened Bits
  import opened Wrappers
  import opened Core
  import opened Lexical

  const MICROS: nat := 1_000_000

  datatype AscError =
    | BadTimestamp
    | BadId
    | BadDirection
    | BadLength
    | BadByte
    | CoreFailure(error: CoreError)

  datatype ReadReport = ReadReport(events: seq<CaptureEvent>, notes: seq<FidelityNote>)

  // ---- times ----

  function Nanos(t: Timestamp): int {
    t.seconds * NANOS + t.nanos
  }

  /** The time as the writer computes it: each operation rounds to binary64. */
  function Seconds(t: Timestamp): real {
    Round(Round(t.seconds as real) + Round(t.nanos as real / 1_000_000_000.0))
  }

  /** The microseconds that `{:.6}` shows of a number of seconds, without the sign. */
  function Micros(seconds: real): nat {
    NearestEven(Magnitude(seconds) * 1_000_000.0)
  }

  function TimeText(seconds: real): text {
    (if seconds < 0.0 then "-" else "")
    + Format(Micros(seconds) / MICROS, 10) + "." + FormatFixed(Micros(seconds) % MICROS, 10, 6)
  }

  function PointPosition(s: text): (n: nat)
    ensures n <= |s|
    ensures n < |s| ==> s[n] == '.'
    ensures forall k | 0 <= k < n :: s[k] != '.'
  {
    if s == [] || s[0] == '.' then 0 else 1 + PointPosition(s[1..])
  }

  function ExponentPosition(s: text): (n: nat)
    ensures n <= |s|
    ensures n < |s| ==> Lower(s[n]) == 'e'
    ensures forall k | 0 <= k < n :: Lower(s[k]) != 'e'
  {
    if s == [] || Lower(s[0]) == 'e' then 0 else 1 + ExponentPosition(s[1..])
  }

  /** A parsed number; a finite one is its digits over ten to the `scale`. */
  datatype Number =
    | Finite(negative: bool, digits: nat, scale: int)
    | Infinite(negative: bool)
    | NotANumber

  predicate Signed(s: text) {
    s != [] && (s[0] == '-' || s[0] == '+')
  }

  /** `parse::<f64>`, before rounding. */
  function ParseNumber(s: text): Option<Number> {
    var negative := s != [] && s[0] == '-';
    var body := if Signed(s) then s[1..] else s;
    if EqualsIgnoringCase(body, "inf") || EqualsIgnoringCase(body, "infinity") then Some(Infinite(negative))
    else if EqualsIgnoringCase(body, "nan") then Some(NotANumber)
    else ParseMagnitude(body, negative)
  }

  function ParseMagnitude(body: text, negative: bool): Option<Number> {
    var mark := ExponentPosition(body);
    var exponent := if mark < |body| then ParseExponent(body[mark + 1..]) else Some(0);
    if exponent.None? then None else ParseMantissa(body[..mark], negative, exponent.value)
  }

  function ParseMantissa(mantissa: text, negative: bool, exponent: int): Option<Number> {
    var point := PointPosition(mantissa);
    var fraction := if point < |mantissa| then mantissa[point + 1..] else [];
    var digits := mantissa[..point] + fraction;
    var value := DigitsValue(digits, 10);
    if digits == [] || value.None? then None
    else Some(Finite(negative, value.value, |fraction| - exponent))
  }

  function ParseExponent(s: text): Option<int> {
    var digits := if Signed(s) then s[1..] else s;
    var value := DigitsValue(digits, 10);
    if digits == [] || value.None? then None
    else
      var magnitude: int := value.value;
      Some(if s[0] == '-' then -magnitude else magnitude)
  }

  /** `digits` over ten to the `scale`. */
  function Scaled(digits: nat, scale: int): real {
    if scale >= 0 then
      PowerPositive(10, scale);
      digits as real / Power(10, scale) as real
    else digits as real * Power(10, -scale) as real
  }

  /** The parsed number of seconds in nanoseconds: `(seconds * 1e9).round() as i64`. */
  function NanosOf(n: Number): i64 {
    match n
    case NotANumber => 0
    case Infinite(negative) => if negative then -0x8000_0000_0000_0000 else 0x7fff_ffff_ffff_ffff
    case Finite(negative, digits, scale) =>
      var exact := Scaled(digits, scale);
      var seconds := Round(if negative then -exact else exact);
      SaturateI64(RoundAway(Round(seconds * 1_000_000_000.0)))
  }

  lemma {:induction false} PowerPositive(radix: nat, width: nat)
    requires radix > 0
    ensures Power(radix, width) > 0
  {
    if width > 0 {
      PowerPositive(radix, width - 1);
    }
  }

  /** `as i64`, which saturates. */
  function SaturateI64(n: int): i64 {
    if n > 0x7fff_ffff_ffff_ffff then 0x7fff_ffff_ffff_ffff
    else if n < -0x8000_0000_0000_0000 then -0x8000_0000_0000_0000
    else n
  }

  /** Division that truncates towards zero. */
  function TruncDiv(n: int, d: nat): int
    requires d > 0
  {
    if n < 0 then -(-n / d) else n / d
  }

  function TimestampOf(nanos: i64): Timestamp {
    Timestamp(TruncDiv(nanos, NANOS), nanos % NANOS)
  }

  /** The reader truncates seconds but takes nanoseconds modulo, so times before the epoch
      come back only when they are whole seconds. */
  predicate KeptTime(t: Timestamp) {
    && t.nanos < NANOS
    && (t.seconds >= 0 || t.nanos == 0)
    && SaturateI64(Nanos(t)) == Nanos(t)
  }

  lemma TimeKeptIff(t: Timestamp)
    ensures TimestampOf(SaturateI64(Nanos(t))) == t <==> KeptTime(t)
  {
    var n := SaturateI64(Nanos(t));
    assert n >= 0 ==> TruncDiv(n, NANOS) * NANOS + n % NANOS == n;
    assert n < 0 ==> -n / NANOS * NANOS + -n % NANOS == -n;
  }

  // ---- identifiers, directions, kinds and bytes ----

  function IdText(id: CanId): text {
    if id.extended then FormatFixed(id.raw, 16, 8) + "x" else FormatFixed(id.raw, 16, 3)
  }

  function TrimEndX(s: text): text {
    if s != [] && s[|s| - 1] == 'x' then TrimEndX(s[..|s| - 1]) else s
  }

  function ParseHexId(raw: text): Result<CanId, AscError> {
    var trimmed := TrimEndX(raw);
    var extended := (raw != [] && raw[|raw| - 1] == 'x') || |trimmed| > 3;
    var value := ParseUnsigned(trimmed, 16, 0xffff_ffff);
    if value.None? then Failure(BadId)
    else
      var id := if extended then Extended(value.value) else Standard(value.value % 0x1_0000);
      if id.Failure? then Failure(CoreFailure(id.error)) else Success(id.value)
  }

  function DirectionText(d: Direction): text {
    match d
    case Rx => "Rx"
    case Tx => "Tx"
  }

  function DirectionOf(s: text): Option<Direction> {
    if s == "Rx" then Some(Rx) else if s == "Tx" then Some(Tx) else None
  }

  function Lower(c: char): char {
    if 'A' <= c <= 'Z' then (c as int + 32) as char else c
  }

  predicate EqualsIgnoringCase(s: text, lower: text) {
    |s| == |lower| && forall k | 0 <= k < |s| :: Lower(s[k]) == lower[k]
  }

  /** The mark for the kind of frame; error frames have none. */
  function KindText(frame: CanFrame): text
    requires !frame.frameClass.Error?
  {
    if frame.frameClass.Remote? then "r" else if frame.fd then "FD" else "d"
  }

  function HexWords(bytes: seq<byte>): (words: seq<text>)
    ensures |words| == |bytes|
  {
    seq(|bytes|, k requires 0 <= k < |bytes| => FormatFixed(bytes[k], 16, 2))
  }

  function ParseBytes(tokens: seq<text>): Result<seq<byte>, AscError> {
    if tokens == [] then Success([])
    else
      var front := ParseBytes(tokens[..|tokens| - 1]);
      var last := ParseUnsigned(tokens[|tokens| - 1], 16, 255);
      if front.Failure? then front
      else if last.None? then Failure(BadByte)
      else
        var b: byte := last.value;
        Success(front.value + [b])
  }

  // ---- writing ----

  function InterfaceText(e: CaptureEvent): text {
    e.iface.name.GetOr("can0")
  }

  function Fields(e: CaptureEvent): (words: seq<text>)
    requires !e.frame.frameClass.Error?
    ensures |words| == 6
  {
    [TimeText(Seconds(e.timestamp)), InterfaceText(e), IdText(e.frame.id), DirectionText(e.direction),
     KindText(e.frame), Format(|e.frame.data|, 10)]
  }

  function RightAligned(s: text, width: nat): text {
    if |s| < width then Spaces(width - |s|) + s else s
  }

  /** The line of one event; error frames become comments. */
  function EventLine(e: CaptureEvent): text {
    if e.frame.frameClass.Error? then
      "// error frame " + IdText(e.frame.id) + " " + DirectionText(e.direction)
    else
      RightAligned(Fields(e)[0], 10) + " " + Joined(Fields(e)[1..]) + " " + Joined(HexWords(e.frame.data))
  }

  function EventNotes(e: CaptureEvent, index: nat): seq<FidelityNote> {
    (if e.annotations != [] then [FidelityNote(Some(index), AnnotationsNote)] else [])
    + (if e.iface.index.Some? then [FidelityNote(Some(index), IndexNote)] else [])
    + if e.frame.frameClass.Error? then [FidelityNote(Some(index), ClassNote)] else []
  }

  const PROLOGUE: seq<text> := ["date generated by cantools-rs", "base hex  timestamps absolute", "Begin Triggerblock"]
  const EPILOGUE: text := "End TriggerBlock"

  function EventLines(events: seq<CaptureEvent>): (lines: seq<text>)
    ensures |lines| == |events|
  {
    if events == [] then [] else EventLines(events[..|events| - 1]) + [EventLine(events[|events| - 1])]
  }

  function AllNotes(events: seq<CaptureEvent>): seq<FidelityNote> {
    if events == [] then []
    else AllNotes(events[..|events| - 1]) + EventNotes(events[|events| - 1], |events| - 1)
  }

  function LogLines(events: seq<CaptureEvent>): seq<text> {
    PROLOGUE + EventLines(events) + [EPILOGUE]
  }

  /** Writes the log, one line at a time. */
  method WriteAsc(events: seq<CaptureEvent>) returns (log: text, notes: seq<FidelityNote>)
    ensures log == Unlines(LogLines(events)) && notes == AllNotes(events)
  {
    notes := [];
    log := WritePrologue();
    ghost var lines := PROLOGUE;
    for index := 0 to |events|
      invariant log == Unlines(lines) && lines == PROLOGUE + EventLines(events[..index])
      invariant notes == AllNotes(events[..index])
    {
      var line := EventLine(events[index]);
      SnocEvents(events, index);
      UnlinesSnoc(lines, line);
      notes := NoteLosses(events[index], index, notes);
      log := log + line + ['\n'];
      lines := lines + [line];
    }
    assert events[..|events|] == events;
    UnlinesSnoc(lines, EPILOGUE);
    log := log + EPILOGUE + ['\n'];
  }

  method WritePrologue() returns (log: text)
    ensures log == Unlines(PROLOGUE)
  {
    var first, second, third: text := PROLOGUE[0], PROLOGUE[1], PROLOGUE[2];
    log := first + ['\n'];
    log := log + second + ['\n'];
    log := log + third + ['\n'];
    UnlinesSnoc([], first);
    UnlinesSnoc([first], second);
    UnlinesSnoc([first] + [second], third);
    assert PROLOGUE == [first] + [second] + [third];
  }

  /** The notes for one event, in the order of the checks in the loop. */
  method NoteLosses(event: CaptureEvent, index: nat, notes: seq<FidelityNote>) returns (notes': seq<FidelityNote>)
    ensures notes' == notes + EventNotes(event, index)
  {
    notes' := notes;
    if event.annotations != [] {
      notes' := notes' + [FidelityNote(Some(index), AnnotationsNote)];
    }
    if event.iface.index.Some? {
      notes' := notes' + [FidelityNote(Some(index), IndexNote)];
    }
    if event.frame.frameClass.Error? {
      notes' := notes' + [FidelityNote(Some(index), ClassNote)];
    }
  }

  lemma SnocEvents(events: seq<CaptureEvent>, k: nat)
    requires k < |events|
    ensures EventLines(events[..k + 1]) == EventLines(events[..k]) + [EventLine(events[k])]
    ensures AllNotes(events[..k + 1]) == AllNotes(events[..k]) + EventNotes(events[k], k)
  {
    assert events[..k + 1][..k] == events[..k];
  }

  // ---- reading ----

  datatype LineOutcome = Skipped | Unrecognised | Parsed(event: CaptureEvent) | Failed(error: AscError)

  predicate IsSkipped(trimmed: text) {
    || trimmed == []
    || "date" <= trimmed
    || "base" <= trimmed
    || "Begin Triggerblock" <= trimmed
    || "End TriggerBlock" <= trimmed
    || "//" <= trimmed
  }

  function ParseData(parts: seq<text>): Result<seq<byte>, AscError>
    requires |parts| >= 6
  {
    if EqualsIgnoringCase(parts[4], "d") || EqualsIgnoringCase(parts[4], "fd") then
      var declared := ParseUnsigned(parts[5], 10, TWO_TO_THE_64 - 1);
      if declared.None? then Failure(BadLength)
      else
        var rest := parts[6..];
        ParseBytes(if declared.value < |rest| then rest[..declared.value] else rest)
    else Success([])
  }

  function ParseClass(kind: text): FrameClass {
    if EqualsIgnoringCase(kind, "r") then Remote
    else if EqualsIgnoringCase(kind, "error") then Error
    else Data
  }

  function ParseEvent(parts: seq<text>): Result<CaptureEvent, AscError>
    requires |parts| >= 6
  {
    var seconds := ParseNumber(parts[0]);
    if seconds.None? then Failure(BadTimestamp)
    else
      var id := ParseHexId(parts[2]);
      if id.Failure? then Failure(id.error)
      else
        var direction := DirectionOf(parts[3]);
        if direction.None? then Failure(BadDirection)
        else
          var data := ParseData(parts);
          if data.Failure? then Failure(data.error)
          else
            var frame := NewFrame(id.value, ParseClass(parts[4]), data.value, EqualsIgnoringCase(parts[4], "fd"),
                                  DEFAULT_FD_FLAGS);
            if frame.Failure? then Failure(CoreFailure(frame.error))
            else
              Success(NewEvent(TimestampOf(NanosOf(seconds.value)),
                               InterfaceRef(Some(parts[1]), None), direction.value, frame.value))
  }

  function ParseLine(line: text): LineOutcome {
    var trimmed := Trim(line);
    var parts := Tokens(trimmed);
    if IsSkipped(trimmed) then Skipped
    else if |parts| < 6 then Unrecognised
    else
      var e := ParseEvent(parts);
      if e.Failure? then Failed(e.error) else Parsed(e.value)
  }

  function Accumulate(before: Result<ReadReport, AscError>, line: LineOutcome): Result<ReadReport, AscError> {
    if before.Failure? then before
    else
      match line
      case Skipped => before
      case Unrecognised => Success(before.value.(notes := before.value.notes + [FidelityNote(None, LineNote)]))
      case Parsed(e) => Success(before.value.(events := before.value.events + [e]))
      case Failed(error) => Failure(error)
  }

  function ReadLines(lines: seq<text>): Result<ReadReport, AscError> {
    if lines == [] then Success(ReadReport([], []))
    else Accumulate(ReadLines(lines[..|lines| - 1]), ParseLine(lines[|lines| - 1]))
  }

  lemma {:induction false} ErrorStops(lines: seq<text>, k: nat)
    requires k <= |lines| && ReadLines(lines[..k]).Failure?
    ensures ReadLines(lines) == ReadLines(lines[..k])
    decreases |lines|
  {
    if k < |lines| {
      assert lines[..|lines| - 1][..k] == lines[..k];
      ErrorStops(lines[..|lines| - 1], k);
    } else {
      assert lines[..k] == lines;
    }
  }

  lemma ReadLinesNext(lines: seq<text>, k: nat)
    requires k < |lines|
    ensures ReadLines(lines[..k + 1]) == Accumulate(ReadLines(lines[..k]), ParseLine(lines[k]))
  {
    assert lines[..k + 1][..k] == lines[..k];
  }

  method ReadAsc(log: text) returns (r: Result<ReadReport, AscError>)
    ensures r == ReadLines(Lines(log))
  {
    var lines := Lines(log);
    var events, notes := [], [];
    for k := 0 to |lines|
      invariant ReadLines(lines[..k]) == Success(ReadReport(events, notes))
    {
      ReadLinesNext(lines, k);
      var outcome := ParseLine(lines[k]);
      match outcome {
        case Skipped =>
        case Unrecognised => notes := notes + [FidelityNote(None, LineNote)];
        case Parsed(e) => events := events + [e];
        case Failed(error) =>
          ErrorStops(lines, k + 1);
          return Failure(error);
      }
    }
    assert lines[..|lines|] == lines;
    r := Success(ReadReport(events, notes));
  }
}
