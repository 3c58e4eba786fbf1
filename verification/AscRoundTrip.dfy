/** Reading a written ASC log: what comes back, and when it is what was written. */
module AscRoundTrip {
  import opened Bits
  import opened Wrappers
  import opened Core
  import opened Lexical
  import opened Asc
  import opened AscTimes

  /** The event as it comes back from its line. */
  function Normalised(e: CaptureEvent): CaptureEvent {
    CaptureEvent(
      ReadBack(e.timestamp),
      InterfaceRef(Some(InterfaceText(e)), None),
      e.direction,
      CanFrame(e.frame.id, e.frame.frameClass, if e.frame.frameClass.Remote? then [] else e.frame.data,
               e.frame.frameClass.Data? && e.frame.fd, DEFAULT_FD_FLAGS),
      [])
  }

  /** The interface is one field of the line, and the frame can be built again: the data of a
      remote frame is not read. Error frames become comments, which need neither. */
  predicate Writable(e: CaptureEvent) {
    e.frame.frameClass.Error? || (IsWord(InterfaceText(e)) && FrameReadable(e.frame))
  }

  predicate FrameReadable(frame: CanFrame) {
    frame.frameClass.Remote? || frame.Valid()
  }

  // ---- the fields of a line ----

  lemma HexPowers()
    ensures Power(16, 2) == 256 && Power(16, 3) == 4096 && Power(16, 8) == TWO_TO_THE_32
  {
  }

  lemma TrimEndXDigits(s: text)
    requires AllDigits(s)
    ensures TrimEndX(s) == s && TrimEndX(s + "x") == s
    ensures s != [] ==> s[|s| - 1] != 'x'
  {
    assert (s + "x")[..|s|] == s;
  }

  lemma IdParses(id: CanId)
    ensures ParseHexId(IdText(id)) == Success(id) && IsWord(IdText(id))
  {
    HexPowers();
    var width := if id.extended then 8 else 3;
    FixedRoundTrip(id.raw, 16, width);
    var digits := FormatFixed(id.raw, 16, width);
    TrimEndXDigits(digits);
    ParseDigits(digits, 16, id.raw, 0xffff_ffff);
  }

  lemma FormatIsWord(n: nat)
    ensures IsWord(Format(n, 10))
  {
    FormatRoundTrip(n, 10);
  }

  lemma LengthParses(n: nat)
    requires n <= 64
    ensures ParseUnsigned(Format(n, 10), 10, TWO_TO_THE_64 - 1) == Some(n)
  {
    FormatRoundTrip(n, 10);
    ParseDigits(Format(n, 10), 10, n, TWO_TO_THE_64 - 1);
  }

  lemma ByteParses(b: byte)
    ensures ParseUnsigned(FormatFixed(b, 16, 2), 16, 255) == Some(b) && IsWord(FormatFixed(b, 16, 2))
  {
    HexPowers();
    FixedRoundTrip(b, 16, 2);
    ParseDigits(FormatFixed(b, 16, 2), 16, b, 255);
  }

  lemma {:induction false} BytesParse(bytes: seq<byte>)
    ensures ParseBytes(HexWords(bytes)) == Success(bytes) && AllWords(HexWords(bytes))
  {
    if bytes != [] {
      var front := bytes[..|bytes| - 1];
      assert HexWords(bytes)[..|bytes| - 1] == HexWords(front);
      BytesParse(front);
      ByteParses(bytes[|bytes| - 1]);
      assert bytes == front + [bytes[|bytes| - 1]];
      forall k | 0 <= k < |bytes|
        ensures IsWord(HexWords(bytes)[k])
      {
        ByteParses(bytes[k]);
      }
    }
  }

  lemma OneLetter(s: text, lower: text)
    requires |s| == |lower| == 1
    ensures EqualsIgnoringCase(s, lower) <==> Lower(s[0]) == lower[0]
  {
  }

  lemma KindParses(frame: CanFrame)
    requires !frame.frameClass.Error?
    ensures IsWord(KindText(frame)) && ParseClass(KindText(frame)) == frame.frameClass
    ensures EqualsIgnoringCase(KindText(frame), "fd") <==> frame.frameClass.Data? && frame.fd
    ensures EqualsIgnoringCase(KindText(frame), "d") <==> frame.frameClass.Data? && !frame.fd
  {
    var kind := KindText(frame);
    if |kind| == 1 {
      OneLetter(kind, "r");
      OneLetter(kind, "d");
    }
  }

  // ---- one line ----

  lemma DirectionParses(d: Direction)
    ensures DirectionOf(DirectionText(d)) == Some(d) && IsWord(DirectionText(d))
  {
    assert "Rx"[0] != "Tx"[0];
  }

  lemma SixWords(a: text, b: text, c: text, d: text, e: text, f: text)
    requires IsWord(a) && IsWord(b) && IsWord(c) && IsWord(d) && IsWord(e) && IsWord(f)
    ensures AllWords([a, b, c, d, e, f])
  {
  }

  lemma FieldsAreWords(e: CaptureEvent)
    requires IsWord(InterfaceText(e)) && !e.frame.frameClass.Error?
    ensures AllWords(Fields(e))
  {
    TimeIsWord(Seconds(e.timestamp));
    IdParses(e.frame.id);
    DirectionParses(e.direction);
    KindParses(e.frame);
    FormatIsWord(|e.frame.data|);
    SixWords(TimeText(Seconds(e.timestamp)), InterfaceText(e), IdText(e.frame.id), DirectionText(e.direction),
             KindText(e.frame), Format(|e.frame.data|, 10));
  }

  lemma LineSplits(e: CaptureEvent)
    requires IsWord(InterfaceText(e)) && !e.frame.frameClass.Error?
    ensures Tokens(EventLine(e)) == Fields(e) + HexWords(e.frame.data)
  {
    var head, rest, hex := Fields(e)[0], Joined(Fields(e)[1..]), Joined(HexWords(e.frame.data));
    FieldsAreWords(e);
    BytesParse(e.frame.data);
    var first := RightAligned(head, 10);
    assert EventLine(e) == (first + [' '] + rest) + [' '] + hex;
    TokensSplit(first + [' '] + rest, ' ', hex);
    TokensSplit(first, ' ', rest);
    TokensOfAligned(head, 10);
    TokensOfJoined(Fields(e)[1..]);
    TokensOfJoined(HexWords(e.frame.data));
    assert Fields(e) == [head] + Fields(e)[1..];
  }

  lemma TokensOfAligned(w: text, width: nat)
    requires IsWord(w)
    ensures Tokens(RightAligned(w, width)) == [w]
  {
    if |w| < width {
      TrimStartSpaces(width - |w|, w);
      TokensTrimStart(Spaces(width - |w|) + w);
    }
    TokensOfWord(w);
  }

  lemma AlignedAppend(head: text, width: nat, tail: text)
    requires head != [] && !IsSpace(head[0])
    ensures Trim(RightAligned(head, width) + tail) != [] && Trim(RightAligned(head, width) + tail)[0] == head[0]
  {
    var n := if |head| < width then width - |head| else 0;
    assert RightAligned(head, width) + tail == Spaces(n) + (head + tail);
    TrimStartSpaces(n, head + tail);
    TrimEndKeepsStart(head + tail);
  }

  lemma SkippedStarts(s: text)
    requires s != [] && (s[0] == '-' || DigitValue(s[0]) < 10)
    ensures !IsSkipped(s)
  {
  }

  lemma Regrouped(a: text, j: text, h: text)
    ensures a + " " + j + " " + h == a + ([' '] + j + [' '] + h)
  {
  }

  /** A line that starts with a time is none of those that the reader passes over. */
  lemma NotSkipped(e: CaptureEvent, extra: text)
    requires !e.frame.frameClass.Error?
    ensures !IsSkipped(Trim(EventLine(e) + extra))
  {
    var head, j, h := Fields(e)[0], Joined(Fields(e)[1..]), Joined(HexWords(e.frame.data));
    TimeIsWord(Seconds(e.timestamp));
    var tail: text := [' '] + j + [' '] + h;
    Regrouped(RightAligned(head, 10), j, h);
    JoinAssoc(RightAligned(head, 10), tail, extra);
    AlignedAppend(head, 10, tail + extra);
    SkippedStarts(Trim(EventLine(e) + extra));
  }

  lemma ParsesDeclared(parts: seq<text>, bytes: seq<byte>, extra: seq<text>, n: nat)
    requires |parts| >= 6 && parts[6..] == HexWords(bytes) + extra && n <= |bytes|
    requires EqualsIgnoringCase(parts[4], "d") || EqualsIgnoringCase(parts[4], "fd")
    requires ParseUnsigned(parts[5], 10, TWO_TO_THE_64 - 1) == Some(n)
    ensures ParseData(parts) == Success(bytes[..n])
  {
    var rest := parts[6..];
    BytesParse(bytes[..n]);
    assert HexWords(bytes)[..n] == HexWords(bytes[..n]);
    assert rest[..n] == HexWords(bytes[..n]);
    if n == |rest| {
      assert rest[..n] == rest;
    }
  }

  lemma SixAndRest<T>(six: seq<T>, middle: seq<T>, extra: seq<T>, s: seq<T>)
    requires |six| == 6 && s == six + middle + extra
    ensures |s| >= 6 && s[6..] == middle + extra && forall k | 0 <= k < 6 :: s[k] == six[k]
  {
  }

  lemma PartsAt(e: CaptureEvent, parts: seq<text>, extra: seq<text>)
    requires !e.frame.frameClass.Error?
    requires parts == Fields(e) + HexWords(e.frame.data) + extra
    ensures |parts| >= 6
    ensures parts[0] == TimeText(Seconds(e.timestamp)) && parts[1] == InterfaceText(e)
    ensures parts[2] == IdText(e.frame.id) && parts[3] == DirectionText(e.direction)
    ensures parts[4] == KindText(e.frame) && parts[5] == Format(|e.frame.data|, 10)
    ensures parts[6..] == HexWords(e.frame.data) + extra
  {
    SixAndRest(Fields(e), HexWords(e.frame.data), extra, parts);
  }

  lemma DataReturns(parts: seq<text>, data: seq<byte>, extra: seq<text>)
    requires |parts| >= 6 && parts[5] == Format(|data|, 10) && parts[6..] == HexWords(data) + extra && |data| <= 64
    requires EqualsIgnoringCase(parts[4], "d") || EqualsIgnoringCase(parts[4], "fd")
    ensures ParseData(parts) == Success(data)
  {
    LengthParses(|data|);
    ParsesDeclared(parts, data, extra, |data|);
    assert data[..|data|] == data;
  }

  /** What stands behind the declared number of bytes is not read. */
  lemma FrameReturns(e: CaptureEvent, parts: seq<text>, extra: seq<text>)
    requires FrameReadable(e.frame) && !e.frame.frameClass.Error?
    requires |parts| >= 6 && parts[4] == KindText(e.frame) && parts[5] == Format(|e.frame.data|, 10)
    requires parts[6..] == HexWords(e.frame.data) + extra
    ensures ParseData(parts) == Success(Normalised(e).frame.data)
    ensures Normalised(e).frame.Valid()
  {
    KindParses(e.frame);
    if e.frame.frameClass.Data? {
      DataReturns(parts, e.frame.data, extra);
    }
  }

  lemma ValuesReturn(e: CaptureEvent, time: text, id: text, direction: text, kind: text)
    requires !e.frame.frameClass.Error?
    requires time == TimeText(Seconds(e.timestamp)) && id == IdText(e.frame.id)
    requires direction == DirectionText(e.direction) && kind == KindText(e.frame)
    ensures ParseNumber(time).Some? && TimestampOf(NanosOf(ParseNumber(time).value)) == ReadBack(e.timestamp)
    ensures ParseHexId(id) == Success(e.frame.id)
    ensures DirectionOf(direction) == Some(e.direction)
    ensures ParseClass(kind) == e.frame.frameClass
    ensures EqualsIgnoringCase(kind, "fd") <==> Normalised(e).frame.fd
  {
    TimeParses(Seconds(e.timestamp));
    IdParses(e.frame.id);
    DirectionParses(e.direction);
    KindParses(e.frame);
  }

  lemma PartsParse(parts: seq<text>, seconds: Number, id: CanId, direction: Direction, data: seq<byte>, fd: bool)
    requires |parts| >= 6
    requires ParseNumber(parts[0]) == Some(seconds) && ParseHexId(parts[2]) == Success(id)
    requires DirectionOf(parts[3]) == Some(direction) && ParseData(parts) == Success(data)
    requires (EqualsIgnoringCase(parts[4], "fd") <==> fd) && |data| <= MaxData(fd)
    ensures ParseEvent(parts) == Success(CaptureEvent(
              TimestampOf(NanosOf(seconds)), InterfaceRef(Some(parts[1]), None), direction,
              CanFrame(id, ParseClass(parts[4]), data, fd, DEFAULT_FD_FLAGS), []))
  {
  }

  lemma EventReturns(e: CaptureEvent, parts: seq<text>, extra: seq<text>)
    requires FrameReadable(e.frame) && !e.frame.frameClass.Error?
    requires parts == Fields(e) + HexWords(e.frame.data) + extra
    ensures |parts| >= 6 && ParseEvent(parts) == Success(Normalised(e))
  {
    PartsAt(e, parts, extra);
    ValuesReturn(e, parts[0], parts[2], parts[3], parts[4]);
    FrameReturns(e, parts, extra);
    var frame := Normalised(e).frame;
    PartsParse(parts, ParseNumber(parts[0]).value, e.frame.id, e.direction, frame.data, frame.fd);
  }

  lemma LineParses(line: text, parts: seq<text>, e: CaptureEvent)
    requires Tokens(line) == parts && |parts| >= 6 && ParseEvent(parts) == Success(e)
    requires !IsSkipped(Trim(line))
    ensures ParseLine(line) == Parsed(e)
  {
    TokensTrim(line);
  }

  lemma FollowedSplits(e: CaptureEvent, extra: text)
    requires IsWord(InterfaceText(e)) && !e.frame.frameClass.Error?
    ensures Tokens(EventLine(e) + ([' '] + extra)) == Fields(e) + HexWords(e.frame.data) + Tokens(extra)
  {
    var line := EventLine(e);
    LineSplits(e);
    TokensSplit(line, ' ', extra);
    assert line + ([' '] + extra) == line + [' '] + extra;
  }

  /** The line of an event parses to the normalised event whatever follows the data. */
  lemma FollowedReturns(e: CaptureEvent, extra: text)
    requires Writable(e) && !e.frame.frameClass.Error?
    ensures ParseLine(EventLine(e) + ([' '] + extra)) == Parsed(Normalised(e))
  {
    var line := EventLine(e) + ([' '] + extra);
    FollowedSplits(e, extra);
    NotSkipped(e, [' '] + extra);
    EventReturns(e, Tokens(line), Tokens(extra));
    LineParses(line, Tokens(line), Normalised(e));
  }

  lemma EventLineReturns(e: CaptureEvent)
    requires Writable(e) && !e.frame.frameClass.Error?
    ensures ParseLine(EventLine(e)) == Parsed(Normalised(e))
  {
    var line := EventLine(e);
    LineSplits(e);
    assert line + [] == line;
    NotSkipped(e, []);
    assert Tokens(line) + [] == Tokens(line);
    EventReturns(e, Tokens(line), []);
    LineParses(line, Tokens(line), Normalised(e));
  }

  /** What every event has that comes out of a log. */
  predicate Proper(e: CaptureEvent) {
    e.iface.name.Some? && IsWord(e.iface.name.value) && e.frame.Valid()
  }

  lemma {:induction false} TokensAreWords(s: text)
    ensures AllWords(Tokens(s))
  {
    if s == [] {
    } else if IsSpace(s[0]) {
      TokensAreWords(s[1..]);
    } else {
      var n := WordLength(s);
      TokensAreWords(s[n..]);
      assert IsWord(s[..n]);
    }
  }

  lemma ParsedIsProper(line: text)
    ensures ParseLine(line).Parsed? ==> Proper(ParseLine(line).event)
  {
    TokensAreWords(Trim(line));
  }

  /** The line of an event that is not an error frame parses to the normalised event exactly
      when the interface is one word and the frame is valid or remote. */
  lemma EventLineReturnsIff(e: CaptureEvent)
    requires !e.frame.frameClass.Error?
    ensures ParseLine(EventLine(e)) == Parsed(Normalised(e)) <==> Writable(e)
  {
    if Writable(e) {
      EventLineReturns(e);
    } else {
      ParsedIsProper(EventLine(e));
    }
  }

  lemma StartsUntrimmed(s: text)
    requires s != [] && !IsSpace(s[0]) && !IsSpace(s[|s| - 1])
    ensures Trim(s) == s
  {
  }

  lemma CommentSkipped(e: CaptureEvent)
    requires e.frame.frameClass.Error?
    ensures ParseLine(EventLine(e)) == Skipped
  {
    var line := EventLine(e);
    StartsUntrimmed(line);
    assert "//" <= line;
  }

  lemma SkippedAsWritten(line: text)
    requires line != [] && !IsSpace(line[0]) && !IsSpace(line[|line| - 1])
    requires "date" <= line || "base" <= line || "Begin Triggerblock" <= line || "End TriggerBlock" <= line
    ensures ParseLine(line) == Skipped
  {
    StartsUntrimmed(line);
  }

  lemma PrologueSkipped()
    ensures forall k | 0 <= k < |PROLOGUE| :: ParseLine(PROLOGUE[k]) == Skipped
  {
    forall k | 0 <= k < |PROLOGUE|
      ensures ParseLine(PROLOGUE[k]) == Skipped
    {
      SkippedAsWritten(PROLOGUE[k]);
    }
  }

  lemma EpilogueSkipped()
    ensures ParseLine(EPILOGUE) == Skipped
  {
    SkippedAsWritten(EPILOGUE);
  }

  // ---- every written line is one line ----

  lemma OneLineAppend(a: text, b: text)
    requires OnOneLine(a) && OnOneLine(b)
    ensures OnOneLine(a + b)
  {
  }

  lemma {:induction false} JoinedOnOneLine(words: seq<text>)
    requires AllWords(words)
    ensures OnOneLine(Joined(words))
  {
    if |words| > 1 {
      JoinedOnOneLine(words[1..]);
      OneLineAppend(words[0], [' ']);
      OneLineAppend(words[0] + [' '], Joined(words[1..]));
    }
  }

  lemma SpacedOnOneLine(a: text, j: text, h: text)
    requires OnOneLine(a) && OnOneLine(j) && OnOneLine(h)
    ensures OnOneLine(a + " " + j + " " + h)
  {
    Regrouped(a, j, h);
    OneLineAppend([' '] + j + [' '], h);
    OneLineAppend(a, [' '] + j + [' '] + h);
  }

  lemma CommentOnOneLine(id: text, direction: text)
    requires OnOneLine(id) && OnOneLine(direction)
    ensures OnOneLine("// error frame " + id + " " + direction)
  {
    assert OnOneLine("// error frame ");
    OneLineAppend("// error frame ", id);
    OneLineAppend("// error frame " + id, " ");
    OneLineAppend("// error frame " + id + " ", direction);
  }

  lemma LineIsOneLine(e: CaptureEvent)
    requires Writable(e)
    ensures OnOneLine(EventLine(e))
  {
    if e.frame.frameClass.Error? {
      IdParses(e.frame.id);
      CommentOnOneLine(IdText(e.frame.id), DirectionText(e.direction));
    } else {
      FieldsAreWords(e);
      BytesParse(e.frame.data);
      JoinedOnOneLine(Fields(e)[1..]);
      JoinedOnOneLine(HexWords(e.frame.data));
      SpacedOnOneLine(RightAligned(Fields(e)[0], 10), Joined(Fields(e)[1..]), Joined(HexWords(e.frame.data)));
    }
  }

  lemma FrameLinesOnOneLine()
    ensures forall k | 0 <= k < |PROLOGUE| :: OnOneLine(PROLOGUE[k])
    ensures OnOneLine(EPILOGUE)
  {
    assert OnOneLine("date generated by cantools-rs");
    assert OnOneLine("base hex  timestamps absolute");
    assert OnOneLine("Begin Triggerblock");
  }

  lemma {:induction false} EventLinesIndex(events: seq<CaptureEvent>, k: nat)
    requires k < |events|
    ensures EventLines(events)[k] == EventLine(events[k])
  {
    if k < |events| - 1 {
      EventLinesIndex(events[..|events| - 1], k);
    }
  }

  predicate AllWritable(events: seq<CaptureEvent>) {
    forall k | 0 <= k < |events| :: Writable(events[k])
  }

  lemma LogIsLines(events: seq<CaptureEvent>)
    requires AllWritable(events)
    ensures Lines(Unlines(LogLines(events))) == LogLines(events)
  {
    var lines := LogLines(events);
    FrameLinesOnOneLine();
    forall k | 0 <= k < |events|
      ensures OnOneLine(EventLines(events)[k])
    {
      EventLinesIndex(events, k);
      LineIsOneLine(events[k]);
    }
    OneLineLists(PROLOGUE, EventLines(events));
    OneLineLists(PROLOGUE + EventLines(events), [EPILOGUE]);
    LinesOfUnlines(lines);
  }

  lemma OneLineLists(a: seq<text>, b: seq<text>)
    requires (forall k | 0 <= k < |a| :: OnOneLine(a[k])) && (forall k | 0 <= k < |b| :: OnOneLine(b[k]))
    ensures forall k | 0 <= k < |a + b| :: OnOneLine((a + b)[k])
  {
  }

  // ---- the whole log ----

  /** Everything but the error frames, normalised. */
  function Kept(events: seq<CaptureEvent>): (r: seq<CaptureEvent>)
    ensures |r| <= |events|
  {
    if events == [] then []
    else
      var front, last := Kept(events[..|events| - 1]), events[|events| - 1];
      front + if last.frame.frameClass.Error? then [] else [Normalised(last)]
  }

  lemma ReadSnoc(lines: seq<text>, line: text)
    ensures ReadLines(lines + [line]) == Accumulate(ReadLines(lines), ParseLine(line))
  {
    assert (lines + [line])[..|lines|] == lines;
  }

  lemma {:induction false} AllSkipped(lines: seq<text>)
    requires forall k | 0 <= k < |lines| :: ParseLine(lines[k]) == Skipped
    ensures ReadLines(lines) == Success(ReadReport([], []))
  {
    if lines != [] {
      AllSkipped(lines[..|lines| - 1]);
    }
  }

  lemma NextLine(report: ReadReport, e: CaptureEvent)
    requires Writable(e)
    ensures Accumulate(Success(report), ParseLine(EventLine(e)))
         == Success(report.(events := report.events + if e.frame.frameClass.Error? then [] else [Normalised(e)]))
  {
    if e.frame.frameClass.Error? {
      CommentSkipped(e);
      assert report.events + [] == report.events;
    } else {
      EventLineReturns(e);
    }
  }

  lemma {:induction false} ReadEventLines(prologue: seq<text>, events: seq<CaptureEvent>)
    requires ReadLines(prologue) == Success(ReadReport([], [])) && AllWritable(events)
    ensures ReadLines(prologue + EventLines(events)) == Success(ReadReport(Kept(events), []))
  {
    if events == [] {
      assert prologue + [] == prologue;
    } else {
      var front, last := events[..|events| - 1], events[|events| - 1];
      var before := prologue + EventLines(front);
      ReadEventLines(prologue, front);
      assert prologue + EventLines(events) == before + [EventLine(last)];
      ReadSnoc(before, EventLine(last));
      NextLine(ReadReport(Kept(front), []), last);
    }
  }

  function ReadWritten(events: seq<CaptureEvent>): Result<ReadReport, AscError> {
    ReadLines(Lines(Unlines(LogLines(events))))
  }

  lemma LogReturns(events: seq<CaptureEvent>)
    requires AllWritable(events)
    ensures ReadWritten(events) == Success(ReadReport(Kept(events), []))
  {
    LogIsLines(events);
    PrologueSkipped();
    EpilogueSkipped();
    AllSkipped(PROLOGUE);
    ReadEventLines(PROLOGUE, events);
    ReadSnoc(PROLOGUE + EventLines(events), EPILOGUE);
  }

  lemma {:induction false} ReadIsProper(lines: seq<text>)
    ensures ReadLines(lines).Success? ==>
              forall k | 0 <= k < |ReadLines(lines).value.events| :: Proper(ReadLines(lines).value.events[k])
  {
    if lines != [] {
      ReadIsProper(lines[..|lines| - 1]);
      ParsedIsProper(lines[|lines| - 1]);
    }
  }

  lemma {:induction false} KeptContains(events: seq<CaptureEvent>, k: nat)
    requires k < |events| && !events[k].frame.frameClass.Error?
    ensures Normalised(events[k]) in Kept(events)
  {
    if k < |events| - 1 {
      KeptContains(events[..|events| - 1], k);
    }
  }

  /** Reading a written log returns every event but the error frames, in order, normalised,
      and no notes, exactly when the interface of each is one word and its frame is valid or
      remote. */
  lemma LogReturnsIff(events: seq<CaptureEvent>)
    ensures ReadWritten(events) == Success(ReadReport(Kept(events), [])) <==> AllWritable(events)
  {
    if AllWritable(events) {
      LogReturns(events);
    } else if ReadWritten(events) == Success(ReadReport(Kept(events), [])) {
      ReadIsProper(Lines(Unlines(LogLines(events))));
      var k :| 0 <= k < |events| && !Writable(events[k]);
      KeptContains(events, k);
    }
  }

  /** What a caller can check to know that the log keeps all of an event but its time. */
  predicate KeptFields(e: CaptureEvent) {
    && !e.frame.frameClass.Error?
    && Proper(e)
    && e.iface.index.None?
    && e.frame.fdFlags == DEFAULT_FD_FLAGS
    && (e.frame.frameClass.Remote? ==> !e.frame.fd && e.frame.data == [])
    && e.annotations == []
  }

  predicate Faithful(e: CaptureEvent) {
    KeptFields(e) && ReadBack(e.timestamp) == e.timestamp
  }

  lemma NormalisedIffFaithful(e: CaptureEvent)
    requires !e.frame.frameClass.Error? && Proper(e)
    ensures Normalised(e) == e <==> Faithful(e)
  {
  }

  predicate AllFaithful(events: seq<CaptureEvent>) {
    forall k | 0 <= k < |events| :: Faithful(events[k])
  }

  lemma FaithfulSnoc(front: seq<CaptureEvent>, last: CaptureEvent)
    ensures AllFaithful(front + [last]) <==> AllFaithful(front) && Faithful(last)
  {
    assert forall k | 0 <= k < |front| :: (front + [last])[k] == front[k];
    assert (front + [last])[|front|] == last;
  }

  lemma SnocEqual(kept: seq<CaptureEvent>, e: CaptureEvent, front: seq<CaptureEvent>, last: CaptureEvent)
    requires |kept| <= |front|
    ensures kept + [e] == front + [last] <==> kept == front && e == last
  {
    if kept + [e] == front + [last] {
      assert |kept| == |front|;
      assert kept == (kept + [e])[..|front|] == front;
      assert e == (kept + [e])[|front|] == last;
    }
  }

  lemma KeptSnocIff(front: seq<CaptureEvent>, last: CaptureEvent)
    requires Proper(last)
    ensures Kept(front + [last]) == front + [last] <==> Kept(front) == front && Faithful(last)
  {
    assert (front + [last])[..|front|] == front;
    if last.frame.frameClass.Error? {
      assert |Kept(front + [last])| <= |front|;
    } else {
      NormalisedIffFaithful(last);
      SnocEqual(Kept(front), Normalised(last), front, last);
    }
  }

  lemma {:induction false} KeptIffFaithful(events: seq<CaptureEvent>)
    requires forall k | 0 <= k < |events| :: Proper(events[k])
    ensures Kept(events) == events <==> AllFaithful(events)
    decreases |events|
  {
    if events != [] {
      var j := |events| - 1;
      var front, last := events[..j], events[j];
      FrontLast(events);
      KeptIffFaithful(front);
      KeptSnocIff(front, last);
      FaithfulSnoc(front, last);
    }
  }

  lemma ProperIsWritable(events: seq<CaptureEvent>)
    requires forall k | 0 <= k < |events| :: Proper(events[k])
    ensures AllWritable(events)
  {
  }

  /** A log gives back exactly the events written if and only if each of them is faithful. */
  lemma LogRoundTripIff(events: seq<CaptureEvent>)
    ensures ReadWritten(events) == Success(ReadReport(events, [])) <==> AllFaithful(events)
  {
    if ReadWritten(events) == Success(ReadReport(events, [])) {
      ReadIsProper(Lines(Unlines(LogLines(events))));
    }
    if forall k | 0 <= k < |events| :: Proper(events[k]) {
      ProperIsWritable(events);
      LogReturns(events);
      KeptIffFaithful(events);
    }
  }

  /** Times for which there is a test on integers: short ones and recent ones. */
  predicate Decided(t: Timestamp) {
    ShortTime(t) || RecentTime(t)
  }

  predicate Survives(t: Timestamp)
    requires Decided(t)
  {
    if ShortTime(t) then KeptTime(t) && t.nanos % 1000 == 0
    else t.nanos < NANOS && RecentNanos(NearestMicro(Nanos(t))) == Nanos(t)
  }

  lemma DecidedIff(t: Timestamp)
    requires Decided(t)
    ensures ReadBack(t) == t <==> Survives(t)
  {
    if ShortTime(t) {
      ShortTimeReturnsIff(t);
    } else {
      RecentTimeExactIff(t);
    }
  }

  /** For logs of such times: the exact condition in terms of what the caller passes in. */
  lemma DecidedRoundTripIff(events: seq<CaptureEvent>)
    requires forall k | 0 <= k < |events| :: Decided(events[k].timestamp)
    ensures ReadWritten(events) == Success(ReadReport(events, []))
       <==> forall k | 0 <= k < |events| :: KeptFields(events[k]) && Survives(events[k].timestamp)
  {
    LogRoundTripIff(events);
    forall k | 0 <= k < |events|
      ensures Faithful(events[k]) <==> KeptFields(events[k]) && Survives(events[k].timestamp)
    {
      DecidedIff(events[k].timestamp);
    }
  }

  /** The losses that go without a note. */
  predicate SilentLoss(e: CaptureEvent) {
    || ReadBack(e.timestamp) != e.timestamp
    || !Proper(e)
    || e.frame.fdFlags != DEFAULT_FD_FLAGS
    || (e.frame.frameClass.Remote? && (e.frame.fd || e.frame.data != []))
  }

  // ---- notes of a whole log ----

  lemma EventNoted(e: CaptureEvent, index: nat)
    ensures Noted(EventNotes(e, index), index, ClassNote) <==> e.frame.frameClass.Error?
    ensures Noted(EventNotes(e, index), index, IndexNote) <==> e.iface.index.Some?
    ensures Noted(EventNotes(e, index), index, AnnotationsNote) <==> e.annotations != []
    ensures !Noted(EventNotes(e, index), index, NameNote)
  {
  }

  lemma {:induction false} NotesIndexed(events: seq<CaptureEvent>, note: FidelityNote)
    requires note in AllNotes(events)
    ensures note.eventIndex.Some? && note.eventIndex.value < |events|
  {
    var front, last := events[..|events| - 1], events[|events| - 1];
    if note in AllNotes(front) {
      NotesIndexed(front, note);
    }
  }

  /** The notes that carry the number of an event are its own. */
  lemma {:induction false} NotesOf(events: seq<CaptureEvent>, k: nat, field: NoteField)
    requires k < |events|
    ensures Noted(AllNotes(events), k, field) <==> Noted(EventNotes(events[k], k), k, field)
    decreases |events|
  {
    var j := |events| - 1;
    var front, last, note := events[..j], events[j], FidelityNote(Some(k), field);
    assert AllNotes(events) == AllNotes(front) + EventNotes(last, j);
    if k < j {
      NotesOf(front, k, field);
      assert note !in EventNotes(last, j);
    } else if note in AllNotes(front) {
      NotesIndexed(front, note);
    }
  }

  ghost predicate NotesFor(notes: seq<FidelityNote>, e: CaptureEvent, k: nat) {
    forall field :: Noted(notes, k, field) <==> Noted(EventNotes(e, k), k, field)
  }

  /** What is read keeps every part of every event, in order, or there is a note for it; an
      event may be missing as a whole when a note says that its kind of frame was lost. */
  predicate AllNoted(events: seq<CaptureEvent>, read: seq<CaptureEvent>, notes: seq<FidelityNote>) {
    if events == [] then read == []
    else
      var index := |events| - 1;
      if Noted(notes, index, ClassNote) then AllNoted(events[..index], read, notes)
      else
        && read != []
        && LossesNoted(events[index], read[|read| - 1], index, notes)
        && AllNoted(events[..index], read[..|read| - 1], notes)
  }

  lemma PartsNotedIff(e: CaptureEvent, index: nat, notes: seq<FidelityNote>)
    requires NotesFor(notes, e, index) && !e.frame.frameClass.Error? && Writable(e)
    ensures LossesNoted(e, Normalised(e), index, notes) <==> !SilentLoss(e)
  {
    EventNoted(e, index);
  }

  lemma KeptSnoc(front: seq<CaptureEvent>, last: CaptureEvent)
    ensures Kept(front + [last]) == Kept(front) + if last.frame.frameClass.Error? then [] else [Normalised(last)]
  {
    assert (front + [last])[..|front|] == front;
  }

  lemma AllNotedSkip(front: seq<CaptureEvent>, last: CaptureEvent, read: seq<CaptureEvent>, notes: seq<FidelityNote>)
    requires Noted(notes, |front|, ClassNote)
    ensures AllNoted(front + [last], read, notes) <==> AllNoted(front, read, notes)
  {
    assert (front + [last])[..|front|] == front;
  }

  lemma AllNotedTake(front: seq<CaptureEvent>, last: CaptureEvent, read: seq<CaptureEvent>, r: CaptureEvent,
                     notes: seq<FidelityNote>)
    requires !Noted(notes, |front|, ClassNote)
    ensures AllNoted(front + [last], read + [r], notes)
       <==> LossesNoted(last, r, |front|, notes) && AllNoted(front, read, notes)
  {
    assert (front + [last])[..|front|] == front && (read + [r])[..|read|] == read;
  }

  lemma AllNotedNext(front: seq<CaptureEvent>, last: CaptureEvent, notes: seq<FidelityNote>)
    requires NotesFor(notes, last, |front|) && Writable(last)
    ensures AllNoted(front + [last], Kept(front + [last]), notes)
       <==> AllNoted(front, Kept(front), notes) && (last.frame.frameClass.Error? || !SilentLoss(last))
  {
    KeptSnoc(front, last);
    EventNoted(last, |front|);
    var kept := Kept(front);
    if last.frame.frameClass.Error? {
      assert kept + [] == kept;
      AllNotedSkip(front, last, kept, notes);
    } else {
      AllNotedTake(front, last, kept, Normalised(last), notes);
      PartsNotedIff(last, |front|, notes);
    }
  }

  predicate NoneSilent(events: seq<CaptureEvent>) {
    forall k | 0 <= k < |events| :: events[k].frame.frameClass.Error? || !SilentLoss(events[k])
  }

  lemma NoneSilentSnoc(front: seq<CaptureEvent>, last: CaptureEvent)
    ensures NoneSilent(front + [last]) <==> NoneSilent(front) && (last.frame.frameClass.Error? || !SilentLoss(last))
  {
    assert forall k | 0 <= k < |front| :: (front + [last])[k] == front[k];
    assert (front + [last])[|front|] == last;
  }

  lemma {:induction false} KeptNotedIff(events: seq<CaptureEvent>, notes: seq<FidelityNote>)
    requires AllWritable(events) && forall k | 0 <= k < |events| :: NotesFor(notes, events[k], k)
    ensures AllNoted(events, Kept(events), notes) <==> NoneSilent(events)
    decreases |events|
  {
    if events != [] {
      var j := |events| - 1;
      var front, last := events[..j], events[j];
      FrontLast(events);
      KeptNotedIff(front, notes);
      AllNotedNext(front, last, notes);
      NoneSilentSnoc(front, last);
    }
  }

  lemma WritableSnoc(front: seq<CaptureEvent>, last: CaptureEvent)
    requires AllWritable(front) && Writable(last)
    ensures AllWritable(front + [last])
  {
  }

  lemma NotedIsWritable(e: CaptureEvent, r: CaptureEvent, index: nat, notes: seq<FidelityNote>)
    requires NotesFor(notes, e, index) && !Noted(notes, index, ClassNote)
    requires LossesNoted(e, r, index, notes) && Proper(r)
    ensures Writable(e)
  {
    EventNoted(e, index);
  }

  lemma OnlyErrorsNoted(e: CaptureEvent, index: nat, notes: seq<FidelityNote>)
    requires NotesFor(notes, e, index) && Noted(notes, index, ClassNote)
    ensures Writable(e)
  {
    EventNoted(e, index);
  }

  /** Events that are all read back with their names and frames can be written. */
  lemma {:induction false} NotedAreWritable(events: seq<CaptureEvent>, read: seq<CaptureEvent>,
                                            notes: seq<FidelityNote>)
    requires AllNoted(events, read, notes) && forall k | 0 <= k < |events| :: NotesFor(notes, events[k], k)
    requires forall k | 0 <= k < |read| :: Proper(read[k])
    ensures AllWritable(events)
    decreases |events|
  {
    if events != [] {
      var j := |events| - 1;
      var front, last := events[..j], events[j];
      FrontLast(events);
      if Noted(notes, j, ClassNote) {
        NotedAreWritable(front, read, notes);
        OnlyErrorsNoted(last, j, notes);
      } else {
        var m := |read| - 1;
        NotedAreWritable(front, read[..m], notes);
        NotedIsWritable(last, read[m], j, notes);
      }
      WritableSnoc(front, last);
    }
  }

  lemma SilentlessIsWritable(events: seq<CaptureEvent>)
    requires NoneSilent(events)
    ensures AllWritable(events)
  {
  }

  lemma NotesForAll(events: seq<CaptureEvent>, k: nat)
    requires k < |events|
    ensures NotesFor(AllNotes(events), events[k], k)
  {
    forall field
      ensures Noted(AllNotes(events), k, field) <==> Noted(EventNotes(events[k], k), k, field)
    {
      NotesOf(events, k, field);
    }
  }

  /** A log keeps every part of every event or has a note for its loss, as the design promises,
      exactly when no event but an error frame has a silent loss. */
  lemma NotedUnlessSilent(events: seq<CaptureEvent>)
    ensures (ReadWritten(events).Success? && AllNoted(events, ReadWritten(events).value.events, AllNotes(events)))
       <==> NoneSilent(events)
  {
    var notes := AllNotes(events);
    forall k | 0 <= k < |events|
      ensures NotesFor(notes, events[k], k)
    {
      NotesForAll(events, k);
    }
    if ReadWritten(events).Success? && AllNoted(events, ReadWritten(events).value.events, notes) {
      ReadIsProper(Lines(Unlines(LogLines(events))));
      NotedAreWritable(events, ReadWritten(events).value.events, notes);
    }
    if NoneSilent(events) {
      SilentlessIsWritable(events);
    }
    if AllWritable(events) {
      LogReturns(events);
      KeptNotedIff(events, notes);
    }
  }
}
