/** What decoding guarantees: unambiguous matches, conservation of signals, exact values and
    stability when a payload grows. */
module DecoderProperties {
  import opened Binary64
  import opened Bits
  import opened Wrappers
  import opened Core
  import opened SignalBits
  import opened Signals
  import opened DbcDecoder

  // ---- matching ----

  /** Of several messages with one identifier the first is taken. */
  lemma {:induction false} FindsFirst(messages: seq<Message>, id: nat, k: nat)
    requires k < |messages| && messages[k].id == id
    requires forall j | 0 <= j < k :: messages[j].id != id
    ensures FindMessage(messages, id) == Some(messages[k])
  {
    if k > 0 {
      var j := k - 1;
      FindsFirst(messages[1..], id, j);
    }
  }

  /** Of several table entries for one value the first is taken. */
  lemma {:induction false} DescribesFirst(values: seq<ValDescription>, id: int, k: nat)
    requires k < |values| && values[k].id == id
    requires forall j | 0 <= j < k :: values[j].id != id
    ensures FindDescription(values, id) == Some(values[k].description)
  {
    if k > 0 {
      var j := k - 1;
      DescribesFirst(values[1..], id, j);
    }
  }

  ghost predicate Holds(database: Database, id: nat) {
    exists k | 0 <= k < |database.messages| :: database.messages[k].id == id
  }

  ghost function Holders(databases: seq<Database>, id: nat): nat {
    if databases == [] then 0
    else Holders(databases[..|databases| - 1], id) + if Holds(databases[|databases| - 1], id) then 1 else 0
  }

  lemma {:induction false} MatchPerHolder(databases: seq<Database>, id: nat)
    ensures |Matches(databases, id)| == Holders(databases, id)
  {
    if databases != [] {
      MatchPerHolder(databases[..|databases| - 1], id);
      var messages := databases[|databases| - 1].messages;
      var found := FindMessage(messages, id);
      if found.Some? {
        var k :| 0 <= k < |messages| && messages[k] == found.value;
      }
    }
  }

  /** The names of the databases that hold an identifier, in order. */
  ghost function HolderNames(databases: seq<Database>, id: nat): seq<text> {
    if databases == [] then []
    else
      var front, last := HolderNames(databases[..|databases| - 1], id), databases[|databases| - 1];
      if Holds(last, id) then front + [last.name] else front
  }

  lemma {:induction false} MatchNamesAre(databases: seq<Database>, id: nat)
    ensures MatchNames(Matches(databases, id)) == HolderNames(databases, id)
  {
    if databases != [] {
      var messages := databases[|databases| - 1].messages;
      MatchNamesAre(databases[..|databases| - 1], id);
      var found := FindMessage(messages, id);
      if found.Some? {
        var k :| 0 <= k < |messages| && messages[k] == found.value;
      }
    }
  }

  lemma {:induction false} MatchesAreHeld(databases: seq<Database>, id: nat, i: nat) returns (j: nat)
    requires i < |Matches(databases, id)|
    ensures j < |databases| && Matches(databases, id)[i].0 == databases[j]
    ensures FindMessage(databases[j].messages, id) == Some(Matches(databases, id)[i].1)
  {
    var last := |databases| - 1;
    if i < |Matches(databases[..last], id)| {
      j := MatchesAreHeld(databases[..last], id, i);
    } else {
      j := last;
    }
  }

  /** A frame is decoded exactly when one database holds its identifier, by the first message
      of it there, and is otherwise answered by one diagnostic: that none does, or which do. */
  lemma DecodedIffUnique(databases: seq<Database>, frame: CanFrame)
    requires forall k | 0 <= k < |databases| :: ValidDatabase(databases[k])
    ensures ValidMatches(Matches(databases, FrameMessageId(frame.id)))
    ensures var id, r := FrameMessageId(frame.id), Outcome(Matches(databases, FrameMessageId(frame.id)), frame);
            && (r.message.Some? <==> Holders(databases, id) == 1)
            && (Holders(databases, id) == 0 ==> r.diagnostics == [NoMatch(frame.id.raw)])
            && (Holders(databases, id) > 1 ==>
                  r.diagnostics == [AmbiguousMessage(frame.id.raw, HolderNames(databases, id))])
            && (r.message.Some? ==>
                  exists j, m | 0 <= j < |databases| && FindMessage(databases[j].messages, id) == Some(m) ::
                    r.message.value.database == databases[j].name && r.message.value.messageName == m.name)
  {
    var id := FrameMessageId(frame.id);
    MatchesValid(databases, id);
    MatchPerHolder(databases, id);
    MatchNamesAre(databases, id);
    if |Matches(databases, id)| == 1 {
      var j := MatchesAreHeld(databases, id, 0);
      var m := Matches(databases, id)[0].1;
      assert FindMessage(databases[j].messages, id) == Some(m);
    }
  }

  // ---- conservation ----

  /** `a` is `b` with some elements left out. */
  ghost predicate Subsequence<T>(a: seq<T>, b: seq<T>) {
    if a == [] then true
    else if b == [] then false
    else
      var b' := b[..|b| - 1];
      Subsequence(a, b') || (a[|a| - 1] == b[|b| - 1] && Subsequence(a[..|a| - 1], b'))
  }

  lemma SubsequenceSkip<T>(a: seq<T>, b: seq<T>, y: T)
    requires Subsequence(a, b)
    ensures Subsequence(a, b + [y])
  {
    assert (b + [y])[..|b|] == b;
  }

  lemma SubsequenceTake<T>(a: seq<T>, b: seq<T>, y: T)
    requires Subsequence(a, b)
    ensures Subsequence(a + [y], b + [y])
  {
    assert (a + [y])[..|a|] == a && (b + [y])[..|b|] == b;
  }

  lemma {:induction false} SubsequenceMember<T>(a: seq<T>, b: seq<T>, k: nat)
    requires Subsequence(a, b) && k < |a|
    ensures a[k] in b
    decreases |b|
  {
    var b' := b[..|b| - 1];
    if Subsequence(a, b') {
      SubsequenceMember(a, b', k);
    } else if k < |a| - 1 {
      SubsequenceMember(a[..|a| - 1], b', k);
    }
  }

  lemma {:induction false} FittingSubsequence(active: seq<Signal>, data: seq<byte>, fit: bool)
    ensures Subsequence(Fitting(active, data, fit), active)
  {
    if active != [] {
      var front, last := active[..|active| - 1], active[|active| - 1];
      assert active == front + [last];
      FittingSubsequence(front, data, fit);
      if Fits(last, data) == fit {
        SubsequenceTake(Fitting(front, data, fit), front, last);
      } else {
        SubsequenceSkip(Fitting(front, data, fit), front, last);
      }
    }
  }

  lemma {:induction false} FittingSplits(active: seq<Signal>, data: seq<byte>)
    ensures multiset(active) == multiset(Fitting(active, data, true)) + multiset(Fitting(active, data, false))
  {
    if active != [] {
      var front, last := active[..|active| - 1], active[|active| - 1];
      assert active == front + [last];
      FittingSplits(front, data);
    }
  }

  /** Every active signal yields exactly one decoded signal or one diagnostic under its
      name, and both lists keep the source order. */
  lemma DecodeConserves(database: Database, message: Message, data: seq<byte>)
    requires ValidMessage(message)
    ensures var active := Active(message.signals, MuxValue(database, message.id, data));
            var read, unread := Readable(database, message, data), Unreadable(database, message, data);
            var r := DecodeMessage(database, message, data);
            && multiset(active) == multiset(read) + multiset(unread)
            && Subsequence(read, active) && Subsequence(unread, active)
            && |r.message.value.signals| == |read| && |r.diagnostics| == |unread|
            && (forall k | 0 <= k < |read| :: r.message.value.signals[k].name == read[k].name)
            && (forall k | 0 <= k < |unread| :: r.diagnostics[k].error.signal == unread[k].name)
  {
    var active := Active(message.signals, MuxValue(database, message.id, data));
    FittingSplits(active, data);
    FittingSubsequence(active, data, true);
    FittingSubsequence(active, data, false);
  }

  // ---- multiplexing ----

  function Selector(signal: Signal): Option<u64> {
    match signal.mux
    case MultiplexedSignal(expected) => Some(expected)
    case MultiplexorAndMultiplexedSignal(expected) => Some(expected)
    case _ => None
  }

  lemma CastInjective(a: u64, b: u64)
    ensures AsI64(a) == AsI64(b) <==> a == b
  {
  }

  /** With a readable switch one frame yields switched signals for one selector value only, and
      without one it yields no purely switched signal. */
  lemma OneSelectorPerFrame(database: Database, message: Message, data: seq<byte>, i: nat, k: nat)
    requires ValidMessage(message)
    requires i < |Readable(database, message, data)| && k < |Readable(database, message, data)|
    ensures var a, b := Readable(database, message, data)[i], Readable(database, message, data)[k];
            && (a.mux.MultiplexedSignal? ==> MuxValue(database, message.id, data) == Some(AsI64(a.mux.expected)))
            && (MuxValue(database, message.id, data).Some? && Selector(a).Some? && Selector(b).Some? ==>
                  Selector(a) == Selector(b))
  {
    var mux := MuxValue(database, message.id, data);
    var active := Active(message.signals, mux);
    var a, b := Readable(database, message, data)[i], Readable(database, message, data)[k];
    assert a in active && b in active;
    assert SignalActive(a, mux) && SignalActive(b, mux);
    if Selector(a).Some? && Selector(b).Some? {
      CastInjective(Selector(a).value, Selector(b).value);
    }
  }

  ghost predicate TwoSelectors(signals: seq<Signal>) {
    exists i, k | 0 <= i < |signals| && 0 <= k < |signals| ::
      Selector(signals[i]).Some? && Selector(signals[k]).Some? && Selector(signals[i]) != Selector(signals[k])
  }

  /** Two signals that are both switch and switched, for different selector values, that fit. */
  ghost predicate RivalSwitches(signals: seq<Signal>, data: seq<byte>) {
    exists i, k | 0 <= i < |signals| && 0 <= k < |signals| ::
      && signals[i].mux.MultiplexorAndMultiplexedSignal? && signals[k].mux.MultiplexorAndMultiplexedSignal?
      && Fits(signals[i], data) && Fits(signals[k], data)
      && signals[i].mux.expected != signals[k].mux.expected
  }

  lemma {:induction false} ActiveContains(signals: seq<Signal>, mux: Option<int>, k: nat)
    requires k < |signals| && SignalActive(signals[k], mux)
    ensures signals[k] in Active(signals, mux)
  {
    if k < |signals| - 1 {
      ActiveContains(signals[..|signals| - 1], mux, k);
    }
  }

  lemma {:induction false} FittingContains(signals: seq<Signal>, data: seq<byte>, signal: Signal, fit: bool)
    requires signal in signals && Fits(signal, data) == fit
    ensures signal in Fitting(signals, data, fit)
  {
    if signal != signals[|signals| - 1] {
      FittingContains(signals[..|signals| - 1], data, signal, fit);
    }
  }

  lemma ReadableContains(database: Database, message: Message, data: seq<byte>, k: nat)
    requires ValidMessage(message) && k < |message.signals| && Fits(message.signals[k], data)
    requires SignalActive(message.signals[k], MuxValue(database, message.id, data))
    ensures message.signals[k] in Readable(database, message, data)
  {
    var mux := MuxValue(database, message.id, data);
    ActiveContains(message.signals, mux, k);
    FittingContains(Active(message.signals, mux), data, message.signals[k], true);
  }

  /** A readable signal of an unreadable switch is a signal of the message that is no purely
      switched one. */
  lemma ReadableWithout(database: Database, message: Message, data: seq<byte>, i: nat) returns (k: nat)
    requires ValidMessage(message) && i < |Readable(database, message, data)|
    requires MuxValue(database, message.id, data).None? && Selector(Readable(database, message, data)[i]).Some?
    ensures k < |message.signals| && message.signals[k] == Readable(database, message, data)[i]
    ensures message.signals[k].mux.MultiplexorAndMultiplexedSignal? && Fits(message.signals[k], data)
  {
    var signal := Readable(database, message, data)[i];
    assert signal in Active(message.signals, None);
    assert signal in message.signals && SignalActive(signal, None);
    k :| 0 <= k < |message.signals| && message.signals[k] == signal;
  }

  lemma SelectorsNeedRivals(database: Database, message: Message, data: seq<byte>, i: nat, k: nat)
    requires ValidMessage(message)
    requires i < |Readable(database, message, data)| && k < |Readable(database, message, data)|
    requires var read := Readable(database, message, data);
             Selector(read[i]).Some? && Selector(read[k]).Some? && Selector(read[i]) != Selector(read[k])
    ensures MuxValue(database, message.id, data).None? && RivalSwitches(message.signals, data)
  {
    OneSelectorPerFrame(database, message, data, i, k);
    var i' := ReadableWithout(database, message, data, i);
    var k' := ReadableWithout(database, message, data, k);
  }

  lemma RivalsShow(database: Database, message: Message, data: seq<byte>, i: nat, k: nat)
    requires ValidMessage(message) && MuxValue(database, message.id, data).None?
    requires i < |message.signals| && k < |message.signals|
    requires message.signals[i].mux.MultiplexorAndMultiplexedSignal? && Fits(message.signals[i], data)
    requires message.signals[k].mux.MultiplexorAndMultiplexedSignal? && Fits(message.signals[k], data)
    requires message.signals[i].mux.expected != message.signals[k].mux.expected
    ensures TwoSelectors(Readable(database, message, data))
  {
    var read := Readable(database, message, data);
    ReadableContains(database, message, data, i);
    ReadableContains(database, message, data, k);
    var i' :| 0 <= i' < |read| && read[i'] == message.signals[i];
    var k' :| 0 <= k' < |read| && read[k'] == message.signals[k];
    assert Selector(read[i']) != Selector(read[k']);
  }

  /** One frame yields switched signals for two selector values exactly when the switch is
      absent or cannot be read and rival switches fit. */
  lemma TwoSelectorsIff(database: Database, message: Message, data: seq<byte>)
    requires ValidMessage(message)
    ensures TwoSelectors(Readable(database, message, data))
       <==> MuxValue(database, message.id, data).None? && RivalSwitches(message.signals, data)
  {
    var read, signals := Readable(database, message, data), message.signals;
    if TwoSelectors(read) {
      var i, k :| 0 <= i < |read| && 0 <= k < |read| && Selector(read[i]).Some? && Selector(read[k]).Some?
        && Selector(read[i]) != Selector(read[k]);
      SelectorsNeedRivals(database, message, data, i, k);
    }
    if MuxValue(database, message.id, data).None? && RivalSwitches(signals, data) {
      var i, k :| 0 <= i < |signals| && 0 <= k < |signals|
        && signals[i].mux.MultiplexorAndMultiplexedSignal? && signals[k].mux.MultiplexorAndMultiplexedSignal?
        && Fits(signals[i], data) && Fits(signals[k], data) && signals[i].mux.expected != signals[k].mux.expected;
      RivalsShow(database, message, data, i, k);
    }
  }

  // ---- values ----

  /** The integer reported for a signal, from the payload read as one integer: two's
      complement for signed signals, and the raw field, cast to 64 bits, otherwise. */
  lemma DecodedValueExact(signal: Signal, data: seq<byte>)
    requires ValidSignal(signal) && Fits(signal, data)
    ensures var raw := RawValue(signal, data);
            && raw < Pow2(signal.size)
            && (signal.valueType.Signed? ==>
                  SignalValue(signal, data) == if raw < Pow2(signal.size - 1) then raw else raw - Pow2(signal.size))
            && (signal.valueType.Unsigned? && signal.size < 64 ==> SignalValue(signal, data) == raw)
            && (signal.valueType.Unsigned? ==> (SignalValue(signal, data) - raw) % TWO_TO_THE_64 == 0)
  {
    var raw := RawValue(signal, data);
    RawBelow(signal, data);
    if signal.valueType.Signed? {
      ModLess(raw, signal.size);
      SignExtendIsTwosComplement(raw, signal.size);
    } else {
      CastKeepsSmall(raw, signal.size);
    }
  }

  /** `as i64` only changes values that use the top bit of the word. */
  lemma CastKeepsSmall(raw: nat, size: nat)
    requires size <= 64 && raw < Pow2(size)
    ensures size < 64 ==> AsI64(raw) == raw
    ensures (AsI64(raw) - raw) % TWO_TO_THE_64 == 0
  {
    Pow2Of64();
    assert Pow2(64) == 2 * Pow2(63);
    if size < 64 {
      Pow2Monotone(size, 63);
    }
  }

  lemma RealProduct(a: int, b: int)
    ensures a as real * b as real == (a * b) as real
  {
  }

  lemma ScaledSteps(value: int, f: real, o: real, x: real, y: real)
    requires x == Round(value as real) * f && y == Round(x) + o
    ensures Scaled(value, f, o) == Round(y)
  {
  }

  /** With whole factor and offset the scaled value is exact as long as every step stays
      within 53 bits. */
  lemma WholeScaleExact(value: int, factor: int, offset: int, product: int, f: real, o: real)
    requires product == value * factor && f == factor as real && o == offset as real
    requires -0x20_0000_0000_0000 <= value <= 0x20_0000_0000_0000
    requires -0x20_0000_0000_0000 <= product <= 0x20_0000_0000_0000
    requires -0x20_0000_0000_0000 <= product + offset <= 0x20_0000_0000_0000
    ensures Scaled(value, f, o) == (product + offset) as real
  {
    RoundInteger(value);
    RoundInteger(product);
    RoundInteger(product + offset);
    RealProduct(value, factor);
    ScaledSteps(value, f, o, product as real, (product + offset) as real);
  }

  lemma ProductMagnitude(a: real, b: real)
    ensures Magnitude(a * b) == Magnitude(a) * Magnitude(b)
  {
  }

  lemma ProductBound(a: real, b: real, f: real, left: real, right: real)
    requires left == a * f && right == b * f && TWO_53 * a <= b && f >= 0.0
    ensures TWO_53 * left <= right
  {
    var slack := b - TWO_53 * a;
    assert slack * f >= 0.0;
    assert slack * f == b * f - TWO_53 * (a * f);
  }

  lemma Distributes(x: real, y: real, f: real)
    ensures x * f - y * f == (x - y) * f
  {
  }

  lemma ProductNear(x: real, y: real, f: real, p: real, product: real)
    requires p == x * f && product == y * f && TWO_53 * Magnitude(x - y) <= Magnitude(y)
    ensures TWO_53 * Magnitude(p - product) <= Magnitude(product)
  {
    var d := x - y;
    assert p - product == d * f by { Distributes(x, y, f); }
    assert Magnitude(p - product) == Magnitude(d) * Magnitude(f) by { ProductMagnitude(d, f); }
    assert Magnitude(product) == Magnitude(y) * Magnitude(f) by { ProductMagnitude(y, f); }
    ProductBound(Magnitude(d), Magnitude(y), Magnitude(f), Magnitude(p - product), Magnitude(product));
  }

  lemma StepsNear(value: int, factor: real, offset: real, p: real, product: real)
    requires p == Round(value as real) * factor
    requires TWO_53 * Magnitude(p - product) <= Magnitude(product)
    ensures TWO_53 * Magnitude(Scaled(value, factor, offset) - (product + offset))
              <= 4.0 * Magnitude(product) + Magnitude(product + offset)
  {
    var rounded := Round(p);
    var scaled := Round(rounded + offset);
    RoundRelative(p);
    RoundRelative(rounded + offset);
    NearSteps(product, p, rounded, offset, scaled);
    ScaledSteps(value, factor, offset, p, rounded + offset);
  }

  /** For any factor and offset the scaled value is the exact one up to rounding. */
  lemma ScaledNear(value: int, factor: real, offset: real, product: real)
    requires product == value as real * factor
    ensures TWO_53 * Magnitude(Scaled(value, factor, offset) - (product + offset))
              <= 4.0 * Magnitude(product) + Magnitude(product + offset)
  {
    var exact, v := value as real, Round(value as real);
    var p := v * factor;
    assert TWO_53 * Magnitude(p - product) <= Magnitude(product) by {
      RoundRelative(exact);
      ProductNear(v, exact, factor, p, product);
    }
    StepsNear(value, factor, offset, p, product);
  }

  lemma NearSteps(product: real, p: real, rounded: real, offset: real, scaled: real)
    requires TWO_53 * Magnitude(p - product) <= Magnitude(product)
    requires TWO_53 * Magnitude(rounded - p) <= Magnitude(p)
    requires TWO_53 * Magnitude(scaled - (rounded + offset)) <= Magnitude(rounded + offset)
    ensures TWO_53 * Magnitude(scaled - (product + offset)) <= 4.0 * Magnitude(product) + Magnitude(product + offset)
  {
  }

  // ---- which signals are answered, and how ----

  function DecodedSignals(database: Database, message: Message, data: seq<byte>): seq<DecodedSignal>
    requires ValidMessage(message)
  {
    DecodeMessage(database, message, data).message.value.signals
  }

  ghost predicate UniqueNames(signals: seq<Signal>) {
    forall j, k | 0 <= j < k < |signals| :: signals[j].name != signals[k].name
  }

  /** The database has a switch for the message that can be read, and it shows this value. */
  predicate Selected(database: Database, id: u32, data: seq<byte>, selector: u64) {
    && id in database.multiplexors
    && Fits(database.multiplexors[id], data)
    && RawValue(database.multiplexors[id], data) == selector
  }

  predicate SwitchUnread(database: Database, id: u32, data: seq<byte>) {
    id !in database.multiplexors || !Fits(database.multiplexors[id], data)
  }

  /** What the multiplex indicator of a signal asks of a payload. */
  predicate Admitted(database: Database, id: u32, data: seq<byte>, signal: Signal) {
    match signal.mux
    case MultiplexedSignal(selector) => Selected(database, id, data, selector)
    case MultiplexorAndMultiplexedSignal(selector) =>
      SwitchUnread(database, id, data) || Selected(database, id, data, selector)
    case _ => true
  }

  lemma AdmittedIsActive(database: Database, id: u32, data: seq<byte>, signal: Signal)
    requires ValidDatabase(database)
    ensures Admitted(database, id, data, signal) <==> SignalActive(signal, MuxValue(database, id, data))
  {
    if !SwitchUnread(database, id, data) {
      var switch := database.multiplexors[id];
      RawBelow(switch, data);
      Pow2Of64();
      Pow2Monotone(switch.size, 64);
      if Selector(signal).Some? {
        CastInjective(RawValue(switch, data), Selector(signal).value);
      }
    }
  }

  /** The signal among some of the signals of a message is told by its name. */
  lemma ToldByName(signals: seq<Signal>, part: seq<Signal>, i: nat, k: nat)
    requires UniqueNames(signals) && i < |part| && k < |signals| && part[i] in signals
    requires part[i].name == signals[k].name
    ensures part[i] == signals[k]
  {
    var m :| 0 <= m < |signals| && signals[m] == part[i];
  }

  lemma UnreadableContains(database: Database, message: Message, data: seq<byte>, k: nat)
    requires k < |message.signals| && !Fits(message.signals[k], data)
    requires SignalActive(message.signals[k], MuxValue(database, message.id, data))
    ensures message.signals[k] in Unreadable(database, message, data)
  {
    var mux := MuxValue(database, message.id, data);
    ActiveContains(message.signals, mux, k);
    FittingContains(Active(message.signals, mux), data, message.signals[k], false);
  }

  ghost predicate HasValue(r: DecodeOutcome, name: text) {
    r.message.Some? && exists i | 0 <= i < |r.message.value.signals| :: r.message.value.signals[i].name == name
  }

  ghost predicate HasShortfall(r: DecodeOutcome, name: text) {
    exists i | 0 <= i < |r.diagnostics| :: r.diagnostics[i].SignalTooShort? && r.diagnostics[i].error.signal == name
  }

  lemma ValueIff(database: Database, message: Message, data: seq<byte>, k: nat)
    requires ValidDatabase(database) && ValidMessage(message) && UniqueNames(message.signals) && k < |message.signals|
    ensures HasValue(DecodeMessage(database, message, data), message.signals[k].name)
       <==> Admitted(database, message.id, data, message.signals[k]) && Fits(message.signals[k], data)
  {
    var signal, r := message.signals[k], DecodeMessage(database, message, data);
    var read, values := Readable(database, message, data), r.message.value.signals;
    AdmittedIsActive(database, message.id, data, signal);
    if Admitted(database, message.id, data, signal) && Fits(signal, data) {
      ReadableContains(database, message, data, k);
      var i :| 0 <= i < |read| && read[i] == signal;
      assert values[i].name == signal.name;
    }
    if HasValue(r, signal.name) {
      var i :| 0 <= i < |values| && values[i].name == signal.name;
      assert read[i] in Active(message.signals, MuxValue(database, message.id, data));
      ToldByName(message.signals, read, i, k);
    }
  }

  lemma ShortfallIff(database: Database, message: Message, data: seq<byte>, k: nat)
    requires ValidDatabase(database) && ValidMessage(message) && UniqueNames(message.signals) && k < |message.signals|
    ensures HasShortfall(DecodeMessage(database, message, data), message.signals[k].name)
       <==> Admitted(database, message.id, data, message.signals[k]) && !Fits(message.signals[k], data)
  {
    var signal, r := message.signals[k], DecodeMessage(database, message, data);
    var unread := Unreadable(database, message, data);
    AdmittedIsActive(database, message.id, data, signal);
    if Admitted(database, message.id, data, signal) && !Fits(signal, data) {
      UnreadableContains(database, message, data, k);
      var i :| 0 <= i < |unread| && unread[i] == signal;
      assert r.diagnostics[i].error.signal == signal.name;
    }
    if HasShortfall(r, signal.name) {
      var i :| 0 <= i < |r.diagnostics| && r.diagnostics[i].SignalTooShort?
        && r.diagnostics[i].error.signal == signal.name;
      assert unread[i] in Active(message.signals, MuxValue(database, message.id, data));
      ToldByName(message.signals, unread, i, k);
    }
  }

  /** A frame of the one matching message gets, under the name of each signal, a value exactly
      if the multiplex indicator admits the signal and it fits the payload, and a diagnostic
      exactly if it is admitted and does not fit. */
  lemma SignalAnsweredIff(database: Database, message: Message, frame: CanFrame, k: nat)
    requires ValidDatabase(database) && ValidMessage(message) && UniqueNames(message.signals) && k < |message.signals|
    ensures ValidMatches([(database, message)])
    ensures var signal, r := message.signals[k], Outcome([(database, message)], frame);
            && (HasValue(r, signal.name) <==>
                  Admitted(database, message.id, frame.data, signal) && Fits(signal, frame.data))
            && (HasShortfall(r, signal.name) <==>
                  Admitted(database, message.id, frame.data, signal) && !Fits(signal, frame.data))
  {
    ValueIff(database, message, frame.data, k);
    ShortfallIff(database, message, frame.data, k);
  }

  /** What such a value says: the integer of the signal, its scaled form, the unit unless it is
      empty, and the text of the first table entry for the integer. */
  lemma ValueSays(database: Database, message: Message, data: seq<byte>, k: nat, i: nat)
    requires ValidDatabase(database) && ValidMessage(message) && UniqueNames(message.signals) && k < |message.signals|
    requires i < |DecodedSignals(database, message, data)|
    requires DecodedSignals(database, message, data)[i].name == message.signals[k].name
    ensures Fits(message.signals[k], data)
    ensures var d, signal := DecodedSignals(database, message, data)[i], message.signals[k];
            && d.raw == SignalValue(signal, data)
            && d.scaled == Scaled(d.raw, signal.factor, signal.offset)
            && (d.unit == Some(signal.unit) <==> signal.unit != []) && (d.unit.None? <==> signal.unit == [])
            && (d.enumText.Some? <==>
                  (message.id, signal.name) in database.descriptions
                  && exists v <- database.descriptions[(message.id, signal.name)] :: v.id == d.raw)
            && forall m | (message.id, signal.name) in database.descriptions
                  && 0 <= m < |database.descriptions[(message.id, signal.name)]|
                  && database.descriptions[(message.id, signal.name)][m].id == d.raw
                  && (forall j | 0 <= j < m :: database.descriptions[(message.id, signal.name)][j].id != d.raw) ::
                  d.enumText == Some(database.descriptions[(message.id, signal.name)][m].description)
  {
    var signal, read := message.signals[k], Readable(database, message, data);
    assert read[i] in Active(message.signals, MuxValue(database, message.id, data));
    ToldByName(message.signals, read, i, k);
    var key, value := (message.id, signal.name), SignalValue(signal, data);
    if key in database.descriptions {
      var table := database.descriptions[key];
      forall m | 0 <= m < |table| && table[m].id == value && forall j | 0 <= j < m :: table[j].id != value
        ensures FindDescription(table, value) == Some(table[m].description)
      {
        DescribesFirst(table, value, m);
      }
      TextExistsIff(table, value);
    }
  }

  lemma TextExistsIff(table: seq<ValDescription>, value: int)
    ensures FindDescription(table, value).Some? <==> exists v <- table :: v.id == value
  {
    if FindDescription(table, value).None? {
    } else {
      assert ValDescription(value, FindDescription(table, value).value) in table;
    }
  }

  /** What a diagnostic says: the signal, the length of the payload, and a number of bits that
      is enough for another payload exactly if the signal fits it. */
  lemma ShortfallSays(signal: Signal, data: seq<byte>, other: seq<byte>)
    requires !Fits(signal, data)
    ensures RawResult(signal, data).Failure?
    ensures var error := RawResult(signal, data).error;
            && error.signal == signal.name && error.actualBytes == |data|
            && (Fits(signal, other) <==> error.expectedBits <= 8 * |other|)
  {
  }

  // ---- growing payloads ----

  lemma GrownValue(signal: Signal, data: seq<byte>, ext: seq<byte>)
    requires Fits(signal, data)
    ensures Fits(signal, data + ext) && RawValue(signal, data + ext) == RawValue(signal, data)
  {
    forall j | 0 <= j < signal.size
      ensures BitPosition(signal, j) < 8 * |data|
      ensures BitAt(data, BitPosition(signal, j)) == BitAt(data + ext, BitPosition(signal, j))
    {
      PositionInPayload(signal, |data|, j);
    }
    DependsOnPositions(signal, data, data + ext);
  }

  function FittingValues(database: Database, id: u32, signals: seq<Signal>, mux: Option<int>, data: seq<byte>)
    : seq<DecodedSignal>
    requires AllValid(signals)
  {
    var active := Active(signals, mux);
    SubsetValid(active, signals);
    SubsetValid(Fitting(active, data, true), active);
    Values(database, id, Fitting(active, data, true), data)
  }

  function OneValue(database: Database, id: u32, signal: Signal, mux: Option<int>, data: seq<byte>): seq<DecodedSignal>
    requires ValidSignal(signal)
  {
    if SignalActive(signal, mux) && Fits(signal, data)
    then [DecodeValue(database, id, signal, SignalValue(signal, data))] else []
  }

  lemma FittingValuesSnoc(database: Database, id: u32, signals: seq<Signal>, signal: Signal,
                          mux: Option<int>, data: seq<byte>)
    requires AllValid(signals + [signal]) && AllValid(signals) && ValidSignal(signal)
    ensures FittingValues(database, id, signals + [signal], mux, data)
         == FittingValues(database, id, signals, mux, data)
            + OneValue(database, id, signal, mux, data)
  {
    var active := Active(signals, mux);
    assert (signals + [signal])[..|signals|] == signals;
    SubsetValid(active, signals);
    SubsetValid(Fitting(active, data, true), active);
    if SignalActive(signal, mux) {
      FittingSnoc(active, signal, data, true);
      if Fits(signal, data) {
        ValuesSnoc(database, id, Fitting(active, data, true), signal, data);
      }
    }
  }

  lemma ValueGrows(database: Database, id: u32, last: Signal, mux: Option<int>, mux': Option<int>,
                   data: seq<byte>, ext: seq<byte>, a: seq<DecodedSignal>, b: seq<DecodedSignal>)
    requires ValidSignal(last) && Subsequence(a, b)
    requires SignalActive(last, mux) && Fits(last, data) ==> SignalActive(last, mux')
    ensures Subsequence(a + OneValue(database, id, last, mux, data),
                        b + OneValue(database, id, last, mux', data + ext))
  {
    if SignalActive(last, mux) && Fits(last, data) {
      GrownValue(last, data, ext);
      SubsequenceTake(a, b, DecodeValue(database, id, last, SignalValue(last, data)));
    } else {
      assert a + [] == a && b + [] == b;
      if SignalActive(last, mux') && Fits(last, data + ext) {
        SubsequenceSkip(a, b, DecodeValue(database, id, last, SignalValue(last, data + ext)));
      }
    }
  }

  /** Values survive as long as every signal that was read stays active. */
  lemma {:induction false} ValuesGrow(database: Database, id: u32, signals: seq<Signal>,
                                      mux: Option<int>, mux': Option<int>, data: seq<byte>, ext: seq<byte>)
    requires AllValid(signals)
    requires forall k | 0 <= k < |signals| && SignalActive(signals[k], mux) && Fits(signals[k], data) ::
               SignalActive(signals[k], mux')
    ensures Subsequence(FittingValues(database, id, signals, mux, data),
                        FittingValues(database, id, signals, mux', data + ext))
  {
    if signals != [] {
      var front, last := signals[..|signals| - 1], signals[|signals| - 1];
      assert signals == front + [last];
      ValuesGrow(database, id, front, mux, mux', data, ext);
      FittingValuesSnoc(database, id, front, last, mux, data);
      FittingValuesSnoc(database, id, front, last, mux', data + ext);
      ValueGrows(database, id, last, mux, mux', data, ext,
                 FittingValues(database, id, front, mux, data),
                 FittingValues(database, id, front, mux', data + ext));
    }
  }

  /** A switched switch that is read now and needs the selector value that is not known yet.
      A switch without bits always reads as zero. */
  predicate Endangered(signal: Signal, multiplexor: Signal, data: seq<byte>) {
    && signal.mux.MultiplexorAndMultiplexedSignal?
    && Fits(signal, data)
    && (multiplexor.size == 0 ==> signal.mux.expected != 0)
  }

  /** What a caller can check before sending more bytes, up to `n` in all: there is no
      multiplexor switch, or it is already readable, or it never will be, or no value depends
      on it. */
  ghost predicate Stable(database: Database, message: Message, data: seq<byte>, n: nat) {
    || message.id !in database.multiplexors
    || Fits(database.multiplexors[message.id], data)
    || MaxBit(database.multiplexors[message.id]) >= 8 * n
    || forall k | 0 <= k < |message.signals| ::
         !Endangered(message.signals[k], database.multiplexors[message.id], data)
  }

  lemma StableKeeps(database: Database, message: Message, data: seq<byte>, ext: seq<byte>, n: nat)
    requires ValidMessage(message) && Stable(database, message, data, n) && |data + ext| <= n
    ensures Subsequence(DecodedSignals(database, message, data), DecodedSignals(database, message, data + ext))
  {
    var mux, mux' := MuxValue(database, message.id, data), MuxValue(database, message.id, data + ext);
    if mux.Some? {
      GrownValue(database.multiplexors[message.id], data, ext);
    }
    ValuesGrow(database, message.id, message.signals, mux, mux', data, ext);
  }

  /** With a readable or absent switch, growing the payload also only removes diagnostics. */
  lemma DiagnosticsShrink(database: Database, message: Message, data: seq<byte>, ext: seq<byte>)
    requires ValidMessage(message)
    requires message.id !in database.multiplexors || Fits(database.multiplexors[message.id], data)
    ensures Subsequence(Unreadable(database, message, data + ext), Unreadable(database, message, data))
    ensures |DecodedSignals(database, message, data + ext)| + |Unreadable(database, message, data + ext)|
         == |DecodedSignals(database, message, data)| + |Unreadable(database, message, data)|
  {
    var mux := MuxValue(database, message.id, data);
    if mux.Some? {
      GrownValue(database.multiplexors[message.id], data, ext);
    }
    var active := Active(message.signals, mux);
    UnfittingShrinks(active, data, ext);
    FittingSplits(active, data);
    FittingSplits(active, data + ext);
    assert |active| == |Fitting(active, data, true)| + |Fitting(active, data, false)| by {
      assert |multiset(active)| == |active|;
    }
    assert |active| == |Fitting(active, data + ext, true)| + |Fitting(active, data + ext, false)| by {
      assert |multiset(active)| == |active|;
    }
  }

  lemma {:induction false} UnfittingShrinks(active: seq<Signal>, data: seq<byte>, ext: seq<byte>)
    ensures Subsequence(Fitting(active, data + ext, false), Fitting(active, data, false))
  {
    if active != [] {
      var front, last := active[..|active| - 1], active[|active| - 1];
      UnfittingShrinks(front, data, ext);
      SubsequenceSkip(Fitting(front, data + ext, false), Fitting(front, data, false), last);
      SubsequenceTake(Fitting(front, data + ext, false), Fitting(front, data, false), last);
    }
  }

  // ---- when growing a payload can lose a value ----

  lemma UnreadPosition(signal: Signal, bytes: nat) returns (j: nat)
    requires signal.size >= 1 && MaxBit(signal) >= 8 * bytes
    ensures j < signal.size && BitPosition(signal, j) == MaxBit(signal)
  {
    j := if signal.byteOrder.LittleEndian? then signal.size - 1 else 0;
  }

  /** The last bit read can be set or clear in the last byte that a signal needs. */
  lemma LastBitDecides(signal: Signal, data: seq<byte>, zeros: seq<byte>, ones: seq<byte>, bit: byte)
    requires 1 <= signal.size <= 64 && !Fits(signal, data) && bit == Pow2(MaxBit(signal) % 8)
    requires |data| + |zeros| == MaxBit(signal) / 8 + 1 && zeros == Zeros(|zeros|)
    requires ones == zeros[|zeros| - 1 := bit]
    ensures Fits(signal, data + zeros) && Fits(signal, data + ones)
    ensures RawValue(signal, data + zeros) != RawValue(signal, data + ones)
  {
    var p0, p1, pos := data + zeros, data + ones, MaxBit(signal);
    var j := UnreadPosition(signal, |data|);
    RawBit(signal, p0, j);
    RawBit(signal, p1, j);
    ZeroBit(pos % 8);
    PowerBit(pos % 8);
    assert p0[pos / 8] == 0 && p1[pos / 8] == Pow2(pos % 8);
  }

  lemma BitInByte(k: nat)
    requires k < 8
    ensures Pow2(k) < 256
  {
    assert Pow2(8) == 256;
    Pow2Monotone(k + 1, 8);
  }

  /** The least bytes that make a signal readable can give it a value other than any given
      one, unless it has no bits. */
  lemma OtherValue(signal: Signal, data: seq<byte>, value: int) returns (ext: seq<byte>)
    requires signal.size <= 64 && !Fits(signal, data) && (signal.size == 0 ==> value != 0)
    ensures |data + ext| == MaxBit(signal) / 8 + 1
    ensures Fits(signal, data + ext) && AsI64(RawValue(signal, data + ext)) != value
  {
    var zeros := Zeros(MaxBit(signal) / 8 + 1 - |data|);
    ext := zeros;
    if signal.size > 0 {
      BitInByte(MaxBit(signal) % 8);
      var bit: byte := Pow2(MaxBit(signal) % 8);
      var ones := zeros[|zeros| - 1 := bit];
      LastBitDecides(signal, data, zeros, ones, bit);
      RawBelow(signal, data + zeros);
      RawBelow(signal, data + ones);
      FitsWord(RawValue(signal, data + zeros), signal.size);
      FitsWord(RawValue(signal, data + ones), signal.size);
      ext := if AsI64(RawValue(signal, data + zeros)) != value then zeros else ones;
    }
  }

  lemma ReadableSignalLost(database: Database, message: Message, data: seq<byte>, k: nat) returns (ext: seq<byte>)
    requires ValidDatabase(database) && ValidMessage(message) && UniqueNames(message.signals)
    requires message.id in database.multiplexors && !Fits(database.multiplexors[message.id], data)
    requires k < |message.signals| && Endangered(message.signals[k], database.multiplexors[message.id], data)
    ensures |data + ext| == MaxBit(database.multiplexors[message.id]) / 8 + 1
    ensures !Subsequence(DecodedSignals(database, message, data), DecodedSignals(database, message, data + ext))
  {
    var signal := message.signals[k];
    ext := OtherValue(database.multiplexors[message.id], data, AsI64(signal.mux.expected));
    var read, read' := Readable(database, message, data), Readable(database, message, data + ext);
    var decoded, decoded' := DecodedSignals(database, message, data), DecodedSignals(database, message, data + ext);
    ReadableContains(database, message, data, k);
    var i :| 0 <= i < |read| && read[i] == signal;
    forall i' | 0 <= i' < |decoded'|
      ensures decoded'[i'] != decoded[i]
    {
      assert read'[i'] in message.signals && SignalActive(read'[i'], MuxValue(database, message.id, data + ext));
      var m :| 0 <= m < |message.signals| && message.signals[m] == read'[i'];
      assert m != k;
      assert decoded'[i'].name == message.signals[m].name && decoded[i].name == message.signals[k].name;
    }
    if Subsequence(decoded, decoded') {
      SubsequenceMember(decoded, decoded', i);
    }
  }

  /** Appending bytes, up to `n` in all, keeps every decoded value, whatever the bytes are,
      exactly when `Stable`. */
  lemma GrowthKeepsIffStable(database: Database, message: Message, data: seq<byte>, n: nat)
    requires ValidDatabase(database) && ValidMessage(message) && UniqueNames(message.signals)
    ensures (forall ext | |data + ext| <= n :: Subsequence(DecodedSignals(database, message, data),
                                                           DecodedSignals(database, message, data + ext)))
       <==> Stable(database, message, data, n)
  {
    if Stable(database, message, data, n) {
      forall ext | |data + ext| <= n
        ensures Subsequence(DecodedSignals(database, message, data), DecodedSignals(database, message, data + ext))
      {
        StableKeeps(database, message, data, ext, n);
      }
    } else {
      var k :| 0 <= k < |message.signals|
        && Endangered(message.signals[k], database.multiplexors[message.id], data);
      var ext := ReadableSignalLost(database, message, data, k);
      assert |data + ext| <= n;
    }
  }
}
