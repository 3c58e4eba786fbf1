/** Decoding of frames against loaded DBC databases. */
module DbcDecoder {
  import opened Binary64
  import opened Bits
  import opened Wrappers
  import opened Core
  import opened SignalBits
  import opened Signals

  datatype ValDescription = ValDescription(id: int, description: text)

  /** A message; `id` is the raw identifier with bit 31 marking the extended format. */
  datatype Message = Message(id: u32, name: text, signals: seq<Signal>)

  /** A parsed database. The parser's answers about multiplexor switches and value tables
      are inputs here. */
  datatype Database = Database(
    name: text,
    messages: seq<Message>,
    multiplexors: map<u32, Signal>,
    descriptions: map<(u32, text), seq<ValDescription>>
  )

  datatype DecodedSignal = DecodedSignal(
    name: text,
    raw: int,
    scaled: real,
    unit: Option<text>,
    enumText: Option<text>
  )

  datatype DecodedMessage = DecodedMessage(database: text, messageName: text, signals: seq<DecodedSignal>)

  datatype Diagnostic =
    | NoMatch(id: u32)
    | AmbiguousMessage(id: u32, databases: seq<text>)
    | SignalTooShort(error: DiagnosticError)

  datatype DecodeOutcome = DecodeOutcome(message: Option<DecodedMessage>, diagnostics: seq<Diagnostic>)

  // ---- matching ----

  function FrameMessageId(id: CanId): nat {
    if id.extended then Or(0x8000_0000, id.raw) else id.raw
  }

  /** Standard and extended identifiers never share a message identifier. */
  lemma MessageIdInjective(a: CanId, b: CanId)
    ensures FrameMessageId(a) == a.raw + if a.extended then 0x8000_0000 else 0
    ensures FrameMessageId(a) == FrameMessageId(b) ==> a == b
  {
    ExtendedBit(a.raw);
    ExtendedBit(b.raw);
  }

  lemma ExtendedBit(raw: nat)
    requires raw <= MAX_EXTENDED_ID
    ensures Or(0x8000_0000, raw) == 0x8000_0000 + raw
  {
    assert Pow2(8) == 0x100;
    Pow2Add(8, 8);
    Pow2Add(16, 8);
    Pow2Add(24, 7);
    assert Pow2(31) == 0x8000_0000;
    ShlIsTimes(1, 31);
    OrShifted(raw, 1, 31);
    OrCommutes(0x8000_0000, raw);
  }

  /** The first message with the identifier. */
  function FindMessage(messages: seq<Message>, id: nat): (m: Option<Message>)
    ensures m.Some? ==> m.value in messages && m.value.id == id
    ensures m.None? ==> forall k | 0 <= k < |messages| :: messages[k].id != id
  {
    if messages == [] then None
    else if messages[0].id == id then Some(messages[0])
    else FindMessage(messages[1..], id)
  }

  function Matches(databases: seq<Database>, id: nat): seq<(Database, Message)> {
    if databases == [] then []
    else
      var front := databases[..|databases| - 1];
      var last := databases[|databases| - 1];
      var found := FindMessage(last.messages, id);
      Matches(front, id) + if found.Some? then [(last, found.value)] else []
  }

  // ---- signals ----

  function SignalActive(signal: Signal, muxValue: Option<int>): bool {
    match signal.mux
    case Plain => true
    case Multiplexor => true
    case MultiplexedSignal(expected) => muxValue == Some(AsI64(expected))
    case MultiplexorAndMultiplexedSignal(expected) => muxValue.None? || muxValue == Some(AsI64(expected))
  }

  /** Sign extension shifts by the missing width, which overflows for an empty signal. */
  predicate ValidSignal(signal: Signal) {
    signal.size <= 64 && (signal.valueType.Signed? ==> signal.size >= 1)
  }

  predicate ValidMessage(message: Message) {
    forall k | 0 <= k < |message.signals| :: ValidSignal(message.signals[k])
  }

  /** Signal widths are those that fit the 64-bit raw value. */
  predicate ValidDatabase(database: Database) {
    && (forall k | 0 <= k < |database.messages| :: ValidMessage(database.messages[k]))
    && (forall id <- database.multiplexors :: database.multiplexors[id].size <= 64)
  }

  /** The integer a signal that fits stands for. */
  function SignalValue(signal: Signal, data: seq<byte>): int
    requires ValidSignal(signal) && Fits(signal, data)
  {
    var raw := RawValue(signal, data);
    if signal.valueType.Signed? then SignExtend(raw, signal.size) else AsI64(raw)
  }

  /** The text of the first table entry for the value. */
  function FindDescription(values: seq<ValDescription>, id: int): (d: Option<text>)
    ensures d.None? <==> forall k | 0 <= k < |values| :: values[k].id != id
    ensures d.Some? ==> ValDescription(id, d.value) in values
  {
    if values == [] then None
    else if values[0].id == id then Some(values[0].description)
    else FindDescription(values[1..], id)
  }

  /** `value as f64 * factor + offset`, rounded after each operation. */
  function Scaled(value: int, factor: real, offset: real): real {
    Round(Round(Round(value as real) * factor) + offset)
  }

  function DecodeValue(database: Database, id: u32, signal: Signal, value: int): DecodedSignal {
    DecodedSignal(
      signal.name,
      value,
      Scaled(value, signal.factor, signal.offset),
      if signal.unit == [] then None else Some(signal.unit),
      if (id, signal.name) in database.descriptions
      then FindDescription(database.descriptions[(id, signal.name)], value) else None)
  }

  function MuxValue(database: Database, id: u32, data: seq<byte>): Option<int> {
    if id in database.multiplexors && Fits(database.multiplexors[id], data)
    then Some(AsI64(RawValue(database.multiplexors[id], data))) else None
  }

  /** The signals that are present for this multiplexor value, in source order. */
  function Active(signals: seq<Signal>, muxValue: Option<int>): (active: seq<Signal>)
    ensures forall k | 0 <= k < |active| :: active[k] in signals && SignalActive(active[k], muxValue)
  {
    if signals == [] then []
    else
      var front, last := Active(signals[..|signals| - 1], muxValue), signals[|signals| - 1];
      if SignalActive(last, muxValue) then front + [last] else front
  }

  /** Those of the signals that fit the payload, or do not. */
  function Fitting(signals: seq<Signal>, data: seq<byte>, fit: bool): (r: seq<Signal>)
    ensures forall k | 0 <= k < |r| :: r[k] in signals && (Fits(r[k], data) <==> fit)
  {
    if signals == [] then []
    else
      var front, last := Fitting(signals[..|signals| - 1], data, fit), signals[|signals| - 1];
      if Fits(last, data) == fit then front + [last] else front
  }

  predicate AllValid(signals: seq<Signal>) {
    forall k | 0 <= k < |signals| :: ValidSignal(signals[k])
  }

  function Values(database: Database, id: u32, signals: seq<Signal>, data: seq<byte>): (r: seq<DecodedSignal>)
    requires AllValid(signals) && forall k | 0 <= k < |signals| :: Fits(signals[k], data)
    ensures |r| == |signals|
  {
    seq(|signals|, k requires 0 <= k < |signals| =>
      DecodeValue(database, id, signals[k], SignalValue(signals[k], data)))
  }

  function Shortfalls(signals: seq<Signal>, data: seq<byte>): (r: seq<Diagnostic>)
    ensures |r| == |signals|
  {
    seq(|signals|, k requires 0 <= k < |signals| =>
      SignalTooShort(PayloadTooShort(signals[k].name, MaxBit(signals[k]) + 1, |data|)))
  }

  lemma SubsetValid(part: seq<Signal>, whole: seq<Signal>)
    requires AllValid(whole) && forall k | 0 <= k < |part| :: part[k] in whole
    ensures AllValid(part)
  {
  }

  /** The signals that decode, in source order. */
  function Readable(database: Database, message: Message, data: seq<byte>): (r: seq<Signal>)
    requires ValidMessage(message)
    ensures AllValid(r) && forall k | 0 <= k < |r| :: Fits(r[k], data)
  {
    var active := Active(message.signals, MuxValue(database, message.id, data));
    SubsetValid(active, message.signals);
    SubsetValid(Fitting(active, data, true), active);
    Fitting(active, data, true)
  }

  function Unreadable(database: Database, message: Message, data: seq<byte>): seq<Signal> {
    Fitting(Active(message.signals, MuxValue(database, message.id, data)), data, false)
  }

  /** The outcome for a frame that matches one message of one database. */
  function DecodeMessage(database: Database, message: Message, data: seq<byte>): DecodeOutcome
    requires ValidMessage(message)
  {
    DecodeOutcome(
      Some(DecodedMessage(database.name, message.name,
        Values(database, message.id, Readable(database, message, data), data))),
      Shortfalls(Unreadable(database, message, data), data))
  }

  lemma FittingSnoc(active: seq<Signal>, signal: Signal, data: seq<byte>, fit: bool)
    ensures Fitting(active + [signal], data, fit)
         == Fitting(active, data, fit) + if Fits(signal, data) == fit then [signal] else []
  {
    assert (active + [signal])[..|active|] == active;
  }

  /** What signal `k` adds to the signals that are active and fit, or do not. */
  lemma PresentSnoc(signals: seq<Signal>, k: nat, muxValue: Option<int>, data: seq<byte>, fit: bool)
    requires k < |signals|
    ensures Fitting(Active(signals[..k + 1], muxValue), data, fit)
         == Fitting(Active(signals[..k], muxValue), data, fit)
            + if SignalActive(signals[k], muxValue) && Fits(signals[k], data) == fit then [signals[k]] else []
  {
    assert signals[..k + 1][..k] == signals[..k];
    if SignalActive(signals[k], muxValue) {
      FittingSnoc(Active(signals[..k], muxValue), signals[k], data, fit);
    }
  }

  lemma ValuesSnoc(database: Database, id: u32, signals: seq<Signal>, signal: Signal, data: seq<byte>)
    requires AllValid(signals) && forall k | 0 <= k < |signals| :: Fits(signals[k], data)
    requires ValidSignal(signal) && Fits(signal, data)
    ensures Values(database, id, signals + [signal], data)
         == Values(database, id, signals, data) + [DecodeValue(database, id, signal, SignalValue(signal, data))]
  {
  }

  lemma ShortfallsSnoc(signals: seq<Signal>, signal: Signal, data: seq<byte>)
    ensures Shortfalls(signals + [signal], data) == Shortfalls(signals, data)
         + [SignalTooShort(PayloadTooShort(signal.name, MaxBit(signal) + 1, |data|))]
  {
  }

  predicate ValidMatches(matches: seq<(Database, Message)>) {
    forall k | 0 <= k < |matches| :: ValidDatabase(matches[k].0) && ValidMessage(matches[k].1)
  }

  lemma {:induction false} MatchesValid(databases: seq<Database>, id: nat)
    requires forall k | 0 <= k < |databases| :: ValidDatabase(databases[k])
    ensures ValidMatches(Matches(databases, id))
  {
    if databases != [] {
      MatchesValid(databases[..|databases| - 1], id);
    }
  }

  function MatchNames(matches: seq<(Database, Message)>): seq<text> {
    seq(|matches|, k requires 0 <= k < |matches| => matches[k].0.name)
  }

  function Outcome(matches: seq<(Database, Message)>, frame: CanFrame): DecodeOutcome
    requires ValidMatches(matches)
  {
    if |matches| == 0 then DecodeOutcome(None, [NoMatch(frame.id.raw)])
    else if |matches| > 1 then DecodeOutcome(None, [AmbiguousMessage(frame.id.raw, MatchNames(matches))])
    else DecodeMessage(matches[0].0, matches[0].1, frame.data)
  }

  method ExtractSignal(database: Database, messageId: u32, signal: Signal, payload: seq<byte>)
    returns (r: Result<DecodedSignal, DiagnosticError>)
    requires ValidSignal(signal)
    ensures r == if Fits(signal, payload)
                 then Success(DecodeValue(database, messageId, signal, SignalValue(signal, payload)))
                 else Failure(PayloadTooShort(signal.name, MaxBit(signal) + 1, |payload|))
  {
    var raw := ExtractRaw(payload, signal);
    if raw.Failure? {
      return Failure(raw.error);
    }
    var signed := if signal.valueType.Signed? then SignExtend(raw.value, signal.size) else AsI64(raw.value);
    r := Success(DecodeValue(database, messageId, signal, signed));
  }

  class Decoder {
    var databases: seq<Database>

    ghost predicate Valid()
      reads this
    {
      forall k | 0 <= k < |databases| :: ValidDatabase(databases[k])
    }

    constructor ()
      ensures Valid() && databases == []
    {
      databases := [];
    }

    method Push(database: Database)
      requires Valid() && ValidDatabase(database)
      modifies this
      ensures Valid() && databases == old(databases) + [database]
    {
      databases := databases + [database];
    }

    method DecodeFrame(frame: CanFrame) returns (r: DecodeOutcome)
      requires Valid()
      ensures ValidMatches(Matches(databases, FrameMessageId(frame.id)))
      ensures r == Outcome(Matches(databases, FrameMessageId(frame.id)), frame)
    {
      var id := FrameMessageId(frame.id);
      var matches := [];
      for k := 0 to |databases|
        invariant matches == Matches(databases[..k], id)
      {
        assert databases[..k + 1][..k] == databases[..k];
        var message := FindMessage(databases[k].messages, id);
        if message.Some? {
          matches := matches + [(databases[k], message.value)];
        }
      }
      assert databases[..|databases|] == databases;
      MatchesValid(databases, id);
      if |matches| == 0 {
        return DecodeOutcome(None, [NoMatch(frame.id.raw)]);
      }
      if |matches| > 1 {
        return DecodeOutcome(None, [AmbiguousMessage(frame.id.raw, MatchNames(matches))]);
      }
      r := DecodeMatched(matches[0].0, matches[0].1, frame.data);
    }

    /** The value of the message's multiplexor switch, if it has one that can be read. */
    static method ReadMultiplexor(database: Database, id: u32, data: seq<byte>) returns (muxValue: Option<int>)
      requires ValidDatabase(database)
      ensures muxValue == MuxValue(database, id, data)
    {
      muxValue := None;
      if id in database.multiplexors {
        var raw := ExtractRaw(data, database.multiplexors[id]);
        if raw.Success? {
          muxValue := Some(AsI64(raw.value));
        }
      }
    }

    /** The loop over the signals of the one matching message. */
    static method DecodeMatched(database: Database, message: Message, data: seq<byte>) returns (r: DecodeOutcome)
      requires ValidDatabase(database) && ValidMessage(message)
      ensures r == DecodeMessage(database, message, data)
    {
      var muxValue := ReadMultiplexor(database, message.id, data);
      var signals: seq<DecodedSignal> := [];
      var diagnostics: seq<Diagnostic> := [];
      ghost var read, unread: seq<Signal> := [], [];
      for k := 0 to |message.signals|
        invariant read == Fitting(Active(message.signals[..k], muxValue), data, true) && AllValid(read)
        invariant unread == Fitting(Active(message.signals[..k], muxValue), data, false)
        invariant signals == Values(database, message.id, read, data)
        invariant diagnostics == Shortfalls(unread, data)
      {
        var signal := message.signals[k];
        PresentSnoc(message.signals, k, muxValue, data, true);
        PresentSnoc(message.signals, k, muxValue, data, false);
        if SignalActive(signal, muxValue) {
          var decoded := ExtractSignal(database, message.id, signal, data);
          match decoded {
            case Success(value) =>
              ValuesSnoc(database, message.id, read, signal, data);
              signals, read := signals + [value], read + [signal];
            case Failure(error) =>
              ShortfallsSnoc(unread, signal, data);
              diagnostics, unread := diagnostics + [SignalTooShort(error)], unread + [signal];
          }
        }
      }
      assert message.signals[..|message.signals|] == message.signals;
      r := DecodeOutcome(Some(DecodedMessage(database.name, message.name, signals)), diagnostics);
    }
  }
}
