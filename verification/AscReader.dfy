/** The ASC reader on lines that other programs wrote, and what a written line says. */
module AscReader {
  import opened Binary64
  import opened Bits
  import opened Wrappers
  import opened Core
  import opened Lexical
  import opened Asc
  import opened AscTimes
  import opened AscRoundTrip

  // ---- what a written line says ----

  lemma LengthSays(n: nat)
    requires n < TWO_TO_THE_64
    ensures ParseUnsigned(Format(n, 10), 10, TWO_TO_THE_64 - 1) == Some(n)
  {
    FormatRoundTrip(n, 10);
    ParseDigits(Format(n, 10), 10, n, TWO_TO_THE_64 - 1);
  }

  /** What the words of a line should say of an event: the declared length is the number of
      data bytes, and of the words behind it. */
  predicate Says(words: seq<text>, e: CaptureEvent, seconds: real) {
    && |words| == 6 + |e.frame.data|
    && ParseNumber(words[0]) == Some(Finite(seconds < 0.0, Micros(seconds), 6))
    && words[1] == e.iface.name.GetOr("can0")
    && ParseHexId(words[2]) == Success(e.frame.id)
    && words[3] == (if e.direction.Rx? then "Rx" else "Tx")
    && words[4] == (if e.frame.frameClass.Remote? then "r" else if e.frame.fd then "FD" else "d")
    && (|e.frame.data| < TWO_TO_THE_64 ==>
          ParseUnsigned(words[5], 10, TWO_TO_THE_64 - 1) == Some(|e.frame.data|))
    && forall k | 0 <= k < |e.frame.data| :: ParseUnsigned(words[6 + k], 16, 255) == Some(e.frame.data[k])
  }

  lemma WordsSay(e: CaptureEvent, words: seq<text>, seconds: real)
    requires !e.frame.frameClass.Error? && seconds == Seconds(e.timestamp)
    requires words == Fields(e) + HexWords(e.frame.data) + []
    ensures Says(words, e, seconds)
  {
    var data := e.frame.data;
    PartsAt(e, words, []);
    TimeParses(seconds);
    IdParses(e.frame.id);
    if |data| < TWO_TO_THE_64 {
      LengthSays(|data|);
    }
    forall k | 0 <= k < |data|
      ensures ParseUnsigned(words[6 + k], 16, 255) == Some(data[k])
    {
      assert words[6 + k] == words[6..][k];
      ByteParses(data[k]);
    }
  }

  /** Every word of the line of an event says what it should. */
  lemma LineSays(e: CaptureEvent)
    requires IsWord(InterfaceText(e)) && !e.frame.frameClass.Error?
    ensures Says(Tokens(EventLine(e)), e, Seconds(e.timestamp))
  {
    var words := Tokens(EventLine(e));
    LineSplits(e);
    assert words + [] == words;
    WordsSay(e, words, Seconds(e.timestamp));
  }

  /** The time ends at column 10 or later, behind spaces only, and a space follows. */
  lemma TimeColumn(e: CaptureEvent)
    requires !e.frame.frameClass.Error?
    ensures var time, line := TimeText(Seconds(e.timestamp)), EventLine(e);
            var column := if |time| < 10 then 10 else |time|;
            && column < |line| && line[column] == ' '
            && line[column - |time|..column] == time
            && forall k | 0 <= k < column - |time| :: line[k] == ' '
  {
    var time := TimeText(Seconds(e.timestamp));
    var j, h := Joined(Fields(e)[1..]), Joined(HexWords(e.frame.data));
    var first := RightAligned(time, 10);
    Regrouped(first, j, h);
    assert first[|first| - |time|..] == time;
    Columns(first, [' '] + j + [' '] + h, |first| - |time|);
  }

  lemma Columns(first: text, rest: text, at: nat)
    requires at <= |first|
    ensures (first + rest)[at..|first|] == first[at..]
    ensures forall k | 0 <= k < |first| :: (first + rest)[k] == first[k]
    ensures rest != [] ==> (first + rest)[|first|] == rest[0]
  {
  }

  lemma JoinedCons(word: text, rest: seq<text>)
    requires rest != []
    ensures Joined([word] + rest) == word + [' '] + Joined(rest)
  {
    assert ([word] + rest)[1..] == rest;
  }

  lemma CommentJoins(id: text, direction: text)
    ensures "// error frame " + id + " " + direction
         == "//" + [' '] + ("error" + [' '] + ("frame" + [' '] + (id + [' '] + direction)))
  {
  }

  function CommentWords(id: text, direction: text): (words: seq<text>)
    ensures |words| == 5
  {
    ["//"] + (["error"] + (["frame"] + ([id] + [direction])))
  }

  lemma CommentIsJoined(id: text, direction: text)
    ensures Joined(CommentWords(id, direction)) == "// error frame " + id + " " + direction
  {
    JoinedCons(id, [direction]);
    JoinedCons("frame", [id] + [direction]);
    JoinedCons("error", ["frame"] + ([id] + [direction]));
    JoinedCons("//", ["error"] + (["frame"] + ([id] + [direction])));
    CommentJoins(id, direction);
  }

  lemma CommentWordsAt(id: text, direction: text)
    requires IsWord(id) && IsWord(direction)
    ensures AllWords(CommentWords(id, direction))
    ensures var words := CommentWords(id, direction);
            words[..3] == ["//", "error", "frame"] && words[3] == id && words[4] == direction
  {
  }

  /** The comment that stands for an error frame names its identifier and direction. */
  lemma CommentSays(e: CaptureEvent, words: seq<text>)
    requires e.frame.frameClass.Error? && words == Tokens(EventLine(e))
    ensures |words| == 5 && words[..3] == ["//", "error", "frame"]
    ensures ParseHexId(words[3]) == Success(e.frame.id)
    ensures words[4] == if e.direction.Rx? then "Rx" else "Tx"
  {
    var id, direction := IdText(e.frame.id), DirectionText(e.direction);
    IdParses(e.frame.id);
    DirectionParses(e.direction);
    CommentIsJoined(id, direction);
    CommentWordsAt(id, direction);
    TokensOfJoined(CommentWords(id, direction));
  }

  lemma Around<T>(head: seq<T>, middle: seq<T>, tail: T)
    ensures |head + middle + [tail]| == |head| + |middle| + 1
    ensures (head + middle + [tail])[|head| + |middle|] == tail
    ensures forall k | 0 <= k < |head| :: (head + middle + [tail])[k] == head[k]
    ensures forall k | 0 <= k < |middle| :: (head + middle + [tail])[|head| + k] == middle[k]
  {
  }

  lemma LogLineAt(events: seq<CaptureEvent>, k: nat)
    requires k < |events|
    ensures |LogLines(events)| == |events| + 4 && LogLines(events)[3 + k] == EventLine(events[k])
  {
    EventLinesIndex(events, k);
    Around(PROLOGUE, EventLines(events), EPILOGUE);
  }

  lemma LogEnds(events: seq<CaptureEvent>)
    ensures |LogLines(events)| == |events| + 4
    ensures forall k | 0 <= k < 3 :: LogLines(events)[k] == PROLOGUE[k]
    ensures LogLines(events)[|events| + 3] == EPILOGUE
  {
    Around(PROLOGUE, EventLines(events), EPILOGUE);
  }

  /** A log has three lines in front of those of the events and one behind them. */
  lemma LogFrame(events: seq<CaptureEvent>, lines: seq<text>)
    requires AllWritable(events) && lines == Lines(Unlines(LogLines(events)))
    ensures |lines| == |events| + 4
    ensures lines[0] == "date generated by cantools-rs" && lines[1] == "base hex  timestamps absolute"
    ensures lines[2] == "Begin Triggerblock" && lines[|events| + 3] == "End TriggerBlock"
    ensures forall k | 0 <= k < |events| :: lines[3 + k] == EventLine(events[k])
  {
    LogIsLines(events);
    LogEnds(events);
    forall k | 0 <= k < |events|
      ensures lines[3 + k] == EventLine(events[k])
    {
      LogLineAt(events, k);
    }
  }

  // ---- the declared length of the data ----

  predicate DataKind(kind: text) {
    EqualsIgnoringCase(kind, "d") || EqualsIgnoringCase(kind, "fd")
  }

  /** Of more bytes than declared the first ones are taken, whatever stands behind them; of
      fewer, all are. */
  lemma DeclaredBytes(parts: seq<text>, bytes: seq<byte>, extra: seq<text>, n: nat)
    requires |parts| >= 6 && parts[6..] == HexWords(bytes) + extra && DataKind(parts[4])
    requires ParseUnsigned(parts[5], 10, TWO_TO_THE_64 - 1) == Some(n)
    ensures n <= |bytes| ==> ParseData(parts) == Success(bytes[..n])
    ensures n >= |bytes| && extra == [] ==> ParseData(parts) == Success(bytes)
  {
    if n <= |bytes| {
      ParsesDeclared(parts, bytes, extra, n);
      assert n == |bytes| ==> bytes[..n] == bytes;
    } else if extra == [] {
      assert parts[6..] == HexWords(bytes);
      BytesParse(bytes);
    }
  }

  /** Data bytes are read exactly if each word is a number up to 255 in radix 16. */
  lemma {:induction false} BytesIff(words: seq<text>)
    ensures ParseBytes(words).Success? <==> forall k | 0 <= k < |words| :: ParseUnsigned(words[k], 16, 255).Some?
    ensures ParseBytes(words).Failure? ==> ParseBytes(words).error == BadByte
    ensures ParseBytes(words).Success? ==>
              |ParseBytes(words).value| == |words|
              && forall k | 0 <= k < |words| :: ParseUnsigned(words[k], 16, 255) == Some(ParseBytes(words).value[k])
  {
    if words != [] {
      var j := |words| - 1;
      BytesIff(words[..j]);
      assert forall k | 0 <= k < j :: words[..j][k] == words[k];
    }
  }

  /** Which error a line gives: that of the first field that cannot be read, from the left, or
      that the frame is too long. */
  lemma FirstErrorWins(parts: seq<text>)
    requires |parts| >= 6
    ensures var r, id, known := ParseEvent(parts), ParseHexId(parts[2]), parts[3] == "Rx" || parts[3] == "Tx";
            && (ParseNumber(parts[0]).None? ==> r == Failure(BadTimestamp))
            && (ParseNumber(parts[0]).Some? ==>
                  && (id.Failure? ==> r == Failure(id.error))
                  && (id.Success? && !known ==> r == Failure(BadDirection))
                  && (id.Success? && known ==>
                        && (DataKind(parts[4]) && ParseUnsigned(parts[5], 10, TWO_TO_THE_64 - 1).None? ==>
                              r == Failure(BadLength))
                        && (ParseData(parts).Failure? ==> r == Failure(ParseData(parts).error))
                        && (ParseData(parts).Success? ==>
                              var n, fd := |ParseData(parts).value|, EqualsIgnoringCase(parts[4], "fd");
                              && (r.Success? <==> n <= if fd then 64 else 8)
                              && (r.Failure? ==>
                                    r == Failure(CoreFailure(InvalidPayloadLength(n, if fd then 64 else 8, fd)))))))
  {
  }

  // ---- kinds ----

  /** The same letters, in whatever case. */
  predicate SameLetters(a: text, b: text) {
    |a| == |b| && forall k | 0 <= k < |a| :: Lower(a[k]) == Lower(b[k])
  }

  lemma SameLettersEqual(a: text, b: text, lower: text)
    requires SameLetters(a, b)
    ensures EqualsIgnoringCase(a, lower) <==> EqualsIgnoringCase(b, lower)
  {
  }

  /** The case of the frame kind makes no difference. */
  lemma KindIgnoresCase(parts: seq<text>, kind: text)
    requires |parts| >= 6 && SameLetters(parts[4], kind)
    ensures ParseEvent(parts[4 := kind]) == ParseEvent(parts)
  {
    SameLettersEqual(parts[4], kind, "d");
    SameLettersEqual(parts[4], kind, "fd");
    SameLettersEqual(parts[4], kind, "r");
    SameLettersEqual(parts[4], kind, "error");
    assert parts[4 := kind][6..] == parts[6..];
  }

  /** What the kinds mean; an unknown one is a data frame without data. */
  lemma KindMeans(parts: seq<text>)
    requires |parts| >= 6
    ensures parts[4] == "d" || parts[4] == "fd" ==> ParseClass(parts[4]) == Data && DataKind(parts[4])
    ensures parts[4] == "r" ==> ParseClass(parts[4]) == Remote
    ensures parts[4] == "error" ==> ParseClass(parts[4]) == Error
    ensures !DataKind(parts[4]) ==> ParseData(parts) == Success([])
    ensures ParseClass(parts[4]).Data?
       <==> !EqualsIgnoringCase(parts[4], "r") && !EqualsIgnoringCase(parts[4], "error")
  {
    var kind := parts[4];
    if |kind| == 1 {
      OneLetter(kind, "d");
      OneLetter(kind, "r");
    }
  }

  // ---- identifiers ----

  lemma {:induction false} DigitsBelow(s: text, radix: nat, v: nat)
    requires DigitsValue(s, radix) == Some(v) && radix > 0
    ensures v < Power(radix, |s|)
  {
    if s != [] {
      var j := |s| - 1;
      var front, d := DigitsValue(s[..j], radix).value, DigitValue(s[j]);
      DigitsBelow(s[..j], radix, front);
      ProductBelow(d, front, radix, Power(radix, j));
    }
  }

  lemma {:induction false} PowerMonotone(radix: nat, a: nat, b: nat)
    requires radix >= 1 && a <= b
    ensures Power(radix, a) <= Power(radix, b)
    decreases b
  {
    if a < b {
      PowerMonotone(radix, a, b - 1);
      PowerPositive(radix, b - 1);
      MulAtLeast(radix, Power(radix, b - 1));
    }
  }

  function ExtendedResult(v: u32): Result<CanId, AscError> {
    if v <= 0x1fff_ffff then Success(CanId(v, true)) else Failure(CoreFailure(InvalidCanId(v, true)))
  }

  lemma ThreeDigits(digits: text, v: nat)
    requires |digits| <= 3 && DigitsValue(digits, 16) == Some(v)
    ensures v < 4096
  {
    DigitsBelow(digits, 16, v);
    PowerMonotone(16, |digits|, 3);
    HexPowers();
  }

  lemma HexIdOf(raw: text, digits: text, v: u32)
    requires TrimEndX(raw) == digits && ParseUnsigned(digits, 16, 0xffff_ffff) == Some(v)
    requires (raw != [] && raw[|raw| - 1] == 'x') || |digits| > 3
    ensures ParseHexId(raw) == ExtendedResult(v)
  {
  }

  lemma HexIdStandard(digits: text, v: u32)
    requires TrimEndX(digits) == digits && ParseUnsigned(digits, 16, 0xffff_ffff) == Some(v) && v < 4096
    requires |digits| <= 3 && (digits != [] ==> digits[|digits| - 1] != 'x')
    ensures ParseHexId(digits) == if v <= 0x7ff then Success(CanId(v, false))
                                  else Failure(CoreFailure(InvalidCanId(v, false)))
  {
    assert v % 0x1_0000 == v;
  }

  function Marks(k: nat): (s: text)
    ensures |s| == k && forall j | 0 <= j < k :: s[j] == 'x'
  {
    seq(k, _ => 'x')
  }

  lemma {:induction false} TrimMarks(digits: text, k: nat)
    requires AllDigits(digits)
    ensures TrimEndX(digits + Marks(k)) == digits
  {
    var raw := digits + Marks(k);
    if k == 0 {
      assert raw == digits;
      TrimEndXDigits(digits);
    } else {
      assert raw[..|raw| - 1] == digits + Marks(k - 1);
      TrimMarks(digits, k - 1);
    }
  }

  /** An identifier is extended if it is marked with an `x`, or several, or has more than three
      digits, and is checked against the limit of its format. */
  lemma HexIdMeans(digits: text, v: u32, k: nat)
    requires digits != [] && AllDigits(digits) && DigitsValue(digits, 16) == Some(v)
    ensures k > 0 || |digits| > 3 ==> ParseHexId(digits + Marks(k)) == ExtendedResult(v)
    ensures |digits| <= 3 ==>
              ParseHexId(digits) == if v <= 0x7ff then Success(CanId(v, false))
                                    else Failure(CoreFailure(InvalidCanId(v, false)))
  {
    TrimMarks(digits, k);
    ParseDigits(digits, 16, v, 0xffff_ffff);
    if k > 0 || |digits| > 3 {
      HexIdOf(digits + Marks(k), digits, v);
    }
    if |digits| <= 3 {
      TrimEndXDigits(digits);
      ThreeDigits(digits, v);
      HexIdStandard(digits, v);
    }
  }

  lemma HexIdRejects(raw: text)
    requires ParseUnsigned(TrimEndX(raw), 16, 0xffff_ffff).None?
    ensures ParseHexId(raw) == Failure(BadId)
  {
  }

  /** A number may have a plus sign. */
  lemma PlusAllowed(digits: text, radix: nat, max: nat)
    requires digits != [] && AllDigits(digits)
    ensures ParseUnsigned(['+'] + digits, radix, max) == ParseUnsigned(digits, radix, max)
  {
    assert (['+'] + digits)[1..] == digits;
  }

  // ---- numbers ----

  lemma LowerMeans(k: nat)
    requires k < 26
    ensures Lower(('A' as int + k) as char) == ('a' as int + k) as char == Lower(('a' as int + k) as char)
  {
  }

  lemma DigitIgnoresCase(c: char)
    ensures DigitValue(Lower(c)) == DigitValue(c)
  {
  }

  /** The case of digits makes no difference. */
  lemma {:induction false} DigitsIgnoreCase(a: text, b: text, radix: nat)
    requires SameLetters(a, b)
    ensures DigitsValue(a, radix) == DigitsValue(b, radix)
  {
    if a != [] {
      var j := |a| - 1;
      DigitsIgnoreCase(a[..j], b[..j], radix);
      DigitIgnoresCase(a[j]);
      DigitIgnoresCase(b[j]);
    }
  }

  /** A text has a value exactly if all its characters are digits. */
  lemma {:induction false} ValueIffDigits(s: text, radix: nat)
    ensures DigitsValue(s, radix).Some? <==> forall k | 0 <= k < |s| :: DigitValue(s[k]) < radix
  {
    if s != [] {
      var j := |s| - 1;
      ValueIffDigits(s[..j], radix);
      assert forall k | 0 <= k < j :: s[..j][k] == s[k];
    }
  }

  /** Numbers are refused when they are empty, have a wrong digit or exceed their type. */
  lemma UnsignedIff(digits: text, radix: nat, max: nat)
    requires digits == [] || digits[0] != '+'
    ensures ParseUnsigned(digits, radix, max).Some? <==>
              digits != [] && DigitsValue(digits, radix).Some? && DigitsValue(digits, radix).value <= max
    ensures ParseUnsigned(digits, radix, max).Some? ==> ParseUnsigned(digits, radix, max) == DigitsValue(digits, radix)
  {
  }

  /** Ten times the digits at one more decimal place is the same number. */
  lemma ScaledShift(digits: nat, scale: int)
    ensures Scaled(digits, 0) == digits as real
    ensures Scaled(10 * digits, scale + 1) == Scaled(digits, scale)
  {
    if scale >= 0 {
      PowerPositive(10, scale);
      ShiftUnder(digits as real, Power(10, scale) as real, Power(10, scale + 1) as real);
    } else {
      var j := -scale - 1;
      assert Power(10, j + 1) == 10 * Power(10, j);
      ShiftOver(digits as real, Power(10, j) as real, Power(10, j + 1) as real);
    }
  }

  lemma ShiftUnder(d: real, p: real, q: real)
    requires p > 0.0 && q == 10.0 * p
    ensures 10.0 * d / q == d / p
  {
  }

  lemma ShiftOver(d: real, p: real, q: real)
    requires q == 10.0 * p
    ensures 10.0 * d * p == d * q
  {
  }

  // ---- times with an exponent ----

  lemma {:induction false} ExponentAfter(a: text, b: text, mark: ascii)
    requires (forall k | 0 <= k < |a| :: Lower(a[k]) != 'e') && Lower(mark) == 'e'
    ensures ExponentPosition(a + [mark] + b) == |a|
  {
    var s := a + [mark] + b;
    if a != [] {
      assert s[1..] == a[1..] + [mark] + b;
      ExponentAfter(a[1..], b, mark);
    }
  }

  lemma ExponentParses(digits: text, k: nat)
    requires digits != [] && AllDigits(digits) && DigitsValue(digits, 10) == Some(k)
    ensures ParseExponent(digits) == Some(k)
    ensures ParseExponent(['+'] + digits) == Some(k)
    ensures ParseExponent(['-'] + digits) == Some(-(k as int))
  {
    assert (['+'] + digits)[1..] == digits && (['-'] + digits)[1..] == digits;
  }

  lemma MarkSplits(mantissa: text, mark: ascii, exponent: text, k: int, negative: bool)
    requires forall j | 0 <= j < |mantissa| :: mantissa[j] == '.' || '0' <= mantissa[j] <= '9'
    requires Lower(mark) == 'e' && ParseExponent(exponent) == Some(k)
    ensures ParseMagnitude(mantissa + [mark] + exponent, negative) == ParseMantissa(mantissa, negative, k)
  {
    var body := mantissa + [mark] + exponent;
    ExponentAfter(mantissa, exponent, mark);
    assert body[..|mantissa|] == mantissa && body[|mantissa| + 1..] == exponent;
  }

  /** An exponent moves the point: with a sign or without, after a small or a large letter. */
  lemma ExponentMeans(whole: text, fraction: text, m: nat, mark: ascii, exponent: text, k: int, negative: bool)
    requires Plain(whole, fraction) && DigitsValue(whole + fraction, 10) == Some(m)
    requires Lower(mark) == 'e' && ParseExponent(exponent) == Some(k)
    ensures ParseMagnitude(whole + "." + fraction + [mark] + exponent, negative)
         == Some(Finite(negative, m, |fraction| - k))
  {
    var mantissa := whole + "." + fraction;
    PlainLetters(whole, fraction, mantissa);
    MarkSplits(mantissa, mark, exponent, k, negative);
    PlainMantissa(whole, fraction, mantissa, negative, m, k);
  }

  function Distance(a: int, b: int): nat {
    if a < b then b - a else a - b
  }

  /** A time that does not fit reads as the nearest one that does. */
  lemma SaturationIsNearest(n: int, m: i64)
    ensures Distance(SaturateI64(n), n) <= Distance(m, n)
  {
  }

  /** Infinite times read as the last or first time there is, and what is not a number as 0. */
  lemma NoTimeMeans(negative: bool)
    ensures NanosOf(NotANumber) == 0
    ensures NanosOf(Infinite(negative)) == if negative then -0x8000_0000_0000_0000 else 0x7fff_ffff_ffff_ffff
  {
  }

  lemma WordsMean(s: text)
    requires |s| >= 3
    ensures s == "inf" ==> ParseNumber(s) == Some(Infinite(false))
    ensures s == "-inf" ==> ParseNumber(s) == Some(Infinite(true))
    ensures s == "nan" ==> ParseNumber(s) == Some(NotANumber)
  {
    assert s == "-inf" ==> s[1..] == "inf";
  }

  // ---- lines ----

  /** Lines that end with carriage return and line feed. */
  function UnlinesReturned(lines: seq<text>): text {
    if lines == [] then [] else lines[0] + ['\r', '\n'] + UnlinesReturned(lines[1..])
  }

  lemma {:induction false} ReturnedLineLength(line: text, rest: text)
    requires OnOneLine(line)
    ensures LineLength(line + ['\r', '\n'] + rest) == |line| + 1
  {
    var s := line + ['\r', '\n'] + rest;
    if line == [] {
      assert s[1..][0] == '\n';
    } else {
      assert s[1..] == line[1..] + ['\r', '\n'] + rest;
      ReturnedLineLength(line[1..], rest);
    }
  }

  /** Carriage returns in front of line feeds do not belong to the lines. */
  lemma {:induction false} LinesOfReturned(lines: seq<text>)
    requires forall k | 0 <= k < |lines| :: OnOneLine(lines[k])
    ensures Lines(UnlinesReturned(lines)) == lines
  {
    if lines != [] {
      var s, rest, line := UnlinesReturned(lines), UnlinesReturned(lines[1..]), lines[0];
      ReturnedLineLength(line, rest);
      assert s[..|line| + 1] == line + ['\r'] && s[|line| + 2..] == rest;
      assert (line + ['\r'])[..|line|] == line;
      LinesOfReturned(lines[1..]);
    }
  }

  lemma {:induction false} NoLineFeed(s: text)
    requires forall k | 0 <= k < |s| :: s[k] != '\n'
    ensures LineLength(s) == |s|
  {
    if s != [] {
      NoLineFeed(s[1..]);
    }
  }

  lemma LineSplitsOff(line: text, rest: text)
    requires OnOneLine(line)
    ensures Lines(line + ['\n'] + rest) == [line] + Lines(rest)
  {
    var s := line + ['\n'] + rest;
    LineLengthOf(line, rest);
    assert s[..|line|] == line && s[|line| + 1..] == rest;
  }

  /** The last line counts even if nothing ends it. */
  lemma {:induction false} LastLineCounts(lines: seq<text>, last: text)
    requires (forall k | 0 <= k < |lines| :: OnOneLine(lines[k])) && OnOneLine(last) && last != []
    ensures Lines(Unlines(lines) + last) == lines + [last]
    decreases |lines|
  {
    if lines == [] {
      NoLineFeed(last);
      assert Unlines(lines) + last == last;
    } else {
      var s, rest := Unlines(lines) + last, Unlines(lines[1..]) + last;
      JoinAssoc(lines[0] + ['\n'], Unlines(lines[1..]), last);
      LineSplitsOff(lines[0], rest);
      LastLineCounts(lines[1..], last);
      JoinAssoc([lines[0]], lines[1..], [last]);
      assert [lines[0]] + lines[1..] == lines;
    }
  }

  // ---- whole logs ----

  /** Two parts of a log read one after the other. */
  function Then(a: Result<ReadReport, AscError>, b: Result<ReadReport, AscError>): Result<ReadReport, AscError> {
    if a.Failure? then a
    else if b.Failure? then b
    else Success(ReadReport(a.value.events + b.value.events, a.value.notes + b.value.notes))
  }

  lemma ThenAccumulate(a: Result<ReadReport, AscError>, b: Result<ReadReport, AscError>, line: LineOutcome)
    ensures Accumulate(Then(a, b), line) == Then(a, Accumulate(b, line))
  {
    if a.Success? && b.Success? {
      match line
      case Skipped =>
      case Unrecognised => JoinAssoc(a.value.notes, b.value.notes, [FidelityNote(None, LineNote)]);
      case Parsed(e) => JoinAssoc(a.value.events, b.value.events, [e]);
      case Failed(_) =>
    }
  }

  /** The events and notes of a log are those of its parts in order, up to the first error. */
  lemma {:induction false} ReadAppend(a: seq<text>, b: seq<text>)
    ensures ReadLines(a + b) == Then(ReadLines(a), ReadLines(b))
    decreases |b|
  {
    if b == [] {
      assert a + b == a;
      assert ReadLines(a).Success? ==>
          ReadLines(a).value.events + [] == ReadLines(a).value.events
          && ReadLines(a).value.notes + [] == ReadLines(a).value.notes;
    } else {
      var j := |b| - 1;
      var front, last := b[..j], b[j];
      FrontLast(b);
      ReadAppend(a, front);
      JoinAssoc(a, front, [last]);
      ReadSnoc(a + front, last);
      ThenAccumulate(ReadLines(a), ReadLines(front), ParseLine(last));
    }
  }

  lemma TokensOfSpaceEnd(s: text)
    ensures s != [] && !IsSpace(s[0]) ==> Tokens(s) != [] && Tokens(s)[0] <= s
  {
  }

  lemma {:induction false} TrimStartEdge(s: text)
    ensures TrimStart(s) != [] ==> !IsSpace(TrimStart(s)[0])
  {
    if s != [] && IsSpace(s[0]) {
      TrimStartEdge(s[1..]);
    }
  }

  lemma TrimEdge(s: text)
    ensures Trim(s) != [] ==> !IsSpace(Trim(s)[0])
  {
    TrimStartEdge(s);
    if TrimStart(s) != [] {
      TrimEndKeepsStart(TrimStart(s));
    }
  }

  lemma FirstWord(line: text)
    ensures Tokens(line) == [] <==> Trim(line) == []
    ensures Tokens(line) != [] ==> Tokens(line)[0] <= Trim(line)
  {
    TokensTrim(line);
    TrimEdge(line);
    TokensOfSpaceEnd(Trim(line));
  }

  lemma PrefixOfPrefix(a: text, b: text, c: text)
    requires a <= b <= c
    ensures a <= c
  {
  }

  lemma ReadOne(line: text)
    ensures ReadLines([line]) == Accumulate(Success(ReadReport([], [])), ParseLine(line))
  {
    assert [line][..0] == [];
  }

  /** Blank lines and those whose first word starts as a header or a comment say nothing. */
  lemma HeaderLine(line: text)
    requires var words := Tokens(line);
             words == [] || "date" <= words[0] || "base" <= words[0] || "//" <= words[0]
    ensures ReadLines([line]) == Success(ReadReport([], []))
  {
    var words := Tokens(line);
    FirstWord(line);
    ReadOne(line);
    if words != [] {
      if "date" <= words[0] {
        PrefixOfPrefix("date", words[0], Trim(line));
      } else if "base" <= words[0] {
        PrefixOfPrefix("base", words[0], Trim(line));
      } else {
        PrefixOfPrefix("//", words[0], Trim(line));
      }
    }
  }

  predicate HeaderStart(trimmed: text) {
    || "date" <= trimmed || "base" <= trimmed || "//" <= trimmed
    || "Begin Triggerblock" <= trimmed || "End TriggerBlock" <= trimmed
  }

  lemma NoHeader(trimmed: text)
    requires trimmed != [] && !HeaderStart(trimmed)
    ensures !IsSkipped(trimmed)
  {
  }

  lemma ReadsLine(line: text)
    requires Tokens(line) != [] && !HeaderStart(Trim(line))
    ensures ParseLine(line)
         == if |Tokens(line)| < 6 then Unrecognised
            else
              var e := ParseEvent(Tokens(line));
              if e.Failure? then Failed(e.error) else Parsed(e.value)
  {
    FirstWord(line);
    NoHeader(Trim(line));
    TokensTrim(line);
  }

  lemma OneNote(outcome: LineOutcome)
    requires outcome == Unrecognised
    ensures Accumulate(Success(ReadReport([], [])), outcome)
         == Success(ReadReport([], [FidelityNote(None, LineNote)]))
  {
    assert [] + [FidelityNote(None, LineNote)] == [FidelityNote(None, LineNote)];
  }

  /** Any other line of fewer than six words gives one note and no event. */
  lemma ShortLineNoted(line: text)
    requires 0 < |Tokens(line)| < 6 && !HeaderStart(Trim(line))
    ensures ReadLines([line]) == Success(ReadReport([], [FidelityNote(None, LineNote)]))
  {
    assert Tokens(line) != [];
    assert ParseLine(line) == Unrecognised by { ReadsLine(line); }
    OneNote(ParseLine(line));
    ReadOne(line);
  }

  lemma LongLineGives(line: text)
    requires |Tokens(line)| >= 6 && !HeaderStart(Trim(line))
    ensures var e := ParseEvent(Tokens(line));
            ReadLines([line]) == if e.Failure? then Failure(e.error) else Success(ReadReport([e.value], []))
  {
    ReadsLine(line);
    ReadOne(line);
    var e := ParseEvent(Tokens(line));
    if e.Success? {
      assert [] + [e.value] == [e.value];
    }
  }

  /** Any other line gives one event, or is the error of the whole log wherever it stands. */
  lemma LongLineRead(before: seq<text>, line: text, rest: seq<text>)
    requires |Tokens(line)| >= 6 && !HeaderStart(Trim(line)) && ReadLines(before).Success?
    ensures var e, read := ParseEvent(Tokens(line)), ReadLines(before + [line] + rest);
            && (e.Success? ==> ReadLines([line]) == Success(ReadReport([e.value], [])))
            && (e.Failure? ==> read == Failure(e.error))
  {
    LongLineGives(line);
    ReadAppend(before, [line]);
    ReadAppend(before + [line], rest);
  }
}
