/** Times in the ASC log: what the text of a time says, and when a time comes back. */
module AscTimes {
  import opened Binary64
  import opened Bits
  import opened Wrappers
  import opened Core
  import opened Lexical
  import opened Asc

  // ---- the text of a time ----

  lemma ShiftDigit(va: nat, p: nat, vf: nat, d: nat)
    ensures (va * p + vf) * 10 + d == va * (10 * p) + (vf * 10 + d)
  {
  }

  lemma {:induction false} DigitsAppend(a: text, b: text, va: nat, vb: nat)
    requires DigitsValue(a, 10) == Some(va) && DigitsValue(b, 10) == Some(vb)
    ensures DigitsValue(a + b, 10) == Some(va * Power(10, |b|) + vb)
    decreases |b|
  {
    if b == [] {
      assert a + b == a;
    } else {
      var front, last := b[..|b| - 1], b[|b| - 1];
      var vf, p := DigitsValue(front, 10).value, Power(10, |front|);
      assert (a + b)[..|a + b| - 1] == a + front && (a + b)[|a + b| - 1] == last;
      DigitsAppend(a, front, va, vf);
      ShiftDigit(va, p, vf, DigitValue(last));
    }
  }

  lemma {:induction false} PointAfter(a: text, b: text)
    requires AllDigits(a)
    ensures PointPosition(a + "." + b) == |a|
  {
    var s := a + "." + b;
    if a != [] {
      assert s[1..] == a[1..] + "." + b;
      PointAfter(a[1..], b);
    }
  }

  /** The value of a number in radix 10 exists only if it is made of decimal digits. */
  lemma {:induction false} DecimalDigits(s: text, k: nat)
    requires DigitsValue(s, 10).Some? && k < |s|
    ensures DigitValue(s[k]) < 10
  {
    if k < |s| - 1 {
      DecimalDigits(s[..|s| - 1], k);
    }
  }

  lemma {:induction false} NoExponent(s: text)
    requires forall k | 0 <= k < |s| :: Lower(s[k]) != 'e'
    ensures ExponentPosition(s) == |s|
  {
    if s != [] {
      NoExponent(s[1..]);
    }
  }

  lemma DigitIsNoLetter(c: char)
    requires DigitValue(c) < 10
    ensures Lower(c) == c && '0' <= c <= '9' && !IsSpace(c)
  {
  }

  lemma SixDigits()
    ensures Power(10, 6) == MICROS
  {
  }

  lemma MicrosSplit(m: nat) returns (q: nat, r: nat)
    ensures q == m / MICROS && r == m % MICROS && r < MICROS && q * MICROS + r == m
  {
    q, r := m / MICROS, m % MICROS;
  }

  /** Two digit strings with a point between them. */
  predicate Plain(whole: text, fraction: text) {
    && whole != []
    && DigitsValue(whole, 10).Some? && AllDigits(whole)
    && DigitsValue(fraction, 10).Some? && AllDigits(fraction)
  }

  lemma PlainLetters(whole: text, fraction: text, body: text)
    requires Plain(whole, fraction) && body == whole + "." + fraction
    ensures forall k | 0 <= k < |body| :: body[k] == '.' || '0' <= body[k] <= '9'
  {
    forall k | 0 <= k < |body|
      ensures body[k] == '.' || '0' <= body[k] <= '9'
    {
      if k < |whole| {
        DecimalDigits(whole, k);
        DigitIsNoLetter(body[k]);
      } else if k > |whole| {
        DecimalDigits(fraction, k - |whole| - 1);
        DigitIsNoLetter(body[k]);
      }
    }
  }

  lemma PlainMantissa(whole: text, fraction: text, body: text, negative: bool, m: nat, exponent: int)
    requires Plain(whole, fraction) && body == whole + "." + fraction
    requires DigitsValue(whole + fraction, 10) == Some(m)
    ensures ParseMantissa(body, negative, exponent) == Some(Finite(negative, m, |fraction| - exponent))
  {
    PointAfter(whole, fraction);
    assert body[..|whole|] == whole && body[|whole| + 1..] == fraction;
  }

  lemma PlainParses(whole: text, fraction: text, body: text, negative: bool)
    requires Plain(whole, fraction) && body == whole + "." + fraction
    ensures ParseMagnitude(body, negative) == ParseMantissa(body, negative, 0)
  {
    PlainLetters(whole, fraction, body);
    NoExponent(body);
    assert body[..|body|] == body;
  }

  lemma NoWord(body: text, negative: bool, s: text)
    requires body != [] && '0' <= body[0] <= '9'
    requires s == if negative then ['-'] + body else body
    ensures ParseNumber(s) == ParseMagnitude(body, negative)
  {
    assert negative ==> s[1..] == body;
    assert "inf"[0] == 'i' && "infinity"[0] == 'i' && "nan"[0] == 'n';
  }

  lemma PlainIsWord(whole: text, fraction: text, body: text)
    requires Plain(whole, fraction) && body == whole + "." + fraction
    ensures IsWord(body) && '0' <= body[0] <= '9'
  {
    PlainLetters(whole, fraction, body);
    DecimalDigits(whole, 0);
    DigitIsNoLetter(body[0]);
  }

  lemma SignedPlainParses(whole: text, fraction: text, m: nat, negative: bool, s: text)
    requires Plain(whole, fraction) && DigitsValue(whole + fraction, 10) == Some(m)
    requires s == if negative then ['-'] + (whole + "." + fraction) else whole + "." + fraction
    ensures ParseNumber(s) == Some(Finite(negative, m, |fraction|))
  {
    var body := whole + "." + fraction;
    PlainIsWord(whole, fraction, body);
    NoWord(body, negative, s);
    PlainParses(whole, fraction, body, negative);
    PlainMantissa(whole, fraction, body, negative, m, 0);
  }

  /** The text of whole seconds and microseconds without a sign. */
  function PlainTime(q: nat, r: nat): text {
    Format(q, 10) + "." + FormatFixed(r, 10, 6)
  }

  lemma WholeAndFraction(q: nat, r: nat)
    requires r < MICROS
    ensures Plain(Format(q, 10), FormatFixed(r, 10, 6))
    ensures DigitsValue(Format(q, 10) + FormatFixed(r, 10, 6), 10) == Some(q * MICROS + r)
  {
    var whole, fraction := Format(q, 10), FormatFixed(r, 10, 6);
    SixDigits();
    FormatRoundTrip(q, 10);
    FixedRoundTrip(r, 10, 6);
    assert DigitsValue(whole + fraction, 10) == Some(q * Power(10, 6) + r) by {
      DigitsAppend(whole, fraction, q, r);
    }
  }

  lemma TimeTextParts(seconds: real) returns (q: nat, r: nat)
    ensures r < MICROS && q * MICROS + r == Micros(seconds)
    ensures TimeText(seconds) == if seconds < 0.0 then ['-'] + PlainTime(q, r) else PlainTime(q, r)
  {
    q, r := MicrosSplit(Micros(seconds));
  }

  lemma PlainTimeIsWord(q: nat, r: nat)
    requires r < MICROS
    ensures IsWord(PlainTime(q, r)) && '0' <= PlainTime(q, r)[0] <= '9'
  {
    WholeAndFraction(q, r);
    PlainIsWord(Format(q, 10), FormatFixed(r, 10, 6), PlainTime(q, r));
  }

  /** Any time prints as one word that starts with a sign or a digit. */
  lemma TimeIsWord(seconds: real)
    ensures var s := TimeText(seconds); IsWord(s) && (s[0] == '-' || DigitValue(s[0]) < 10)
  {
    var q, r := TimeTextParts(seconds);
    PlainTimeIsWord(q, r);
  }

  lemma SignedTimeParses(q: nat, r: nat, m: nat, negative: bool, s: text)
    requires r < MICROS && q * MICROS + r == m
    requires s == if negative then ['-'] + PlainTime(q, r) else PlainTime(q, r)
    ensures ParseNumber(s) == Some(Finite(negative, m, 6))
  {
    WholeAndFraction(q, r);
    SignedPlainParses(Format(q, 10), FormatFixed(r, 10, 6), m, negative, s);
  }

  /** Any printed time parses to its sign and its microseconds. */
  lemma TimeParses(seconds: real)
    ensures ParseNumber(TimeText(seconds)) == Some(Finite(seconds < 0.0, Micros(seconds), 6))
  {
    var q, r := TimeTextParts(seconds);
    SignedTimeParses(q, r, Micros(seconds), seconds < 0.0, TimeText(seconds));
  }

  // ---- when a time comes back ----

  /** A written time as it is read. */
  function ReadBack(t: Timestamp): Timestamp {
    TimestampOf(NanosOf(Finite(Seconds(t) < 0.0, Micros(Seconds(t)), 6)))
  }

  function SignedMicros(seconds: real): int {
    var m: int := Micros(seconds);
    if seconds < 0.0 then -m else m
  }

  lemma SixPlaces(m: nat)
    ensures Scaled(m, 6) == m as real / 1_000_000.0
  {
    SixDigits();
  }

  lemma NanosOfMicros(seconds: real)
    ensures NanosOf(Finite(seconds < 0.0, Micros(seconds), 6))
         == SaturateI64(RoundAway(Round(Round(SignedMicros(seconds) as real / 1_000_000.0) * 1_000_000_000.0)))
  {
    SixPlaces(Micros(seconds));
  }

  /** The printed microseconds of a number that is close to `nanos`. */
  lemma MicrosNear(seconds: real, nanos: int)
    requires nanos as real - 120.0 <= seconds * 1_000_000_000.0 <= nanos as real + 120.0
    ensures -620 <= 1000 * SignedMicros(seconds) - nanos <= 620
  {
    var m := SignedMicros(seconds);
    assert seconds * 1_000_000.0 - 0.5 <= m as real <= seconds * 1_000_000.0 + 0.5;
    assert seconds * 1_000_000_000.0 - 500.0 <= (1000 * m) as real <= seconds * 1_000_000_000.0 + 500.0;
  }

  lemma Ulps()
    ensures Halved(TWO_53, 1) == TWO_52 && Halved(0.5, 1) == 0.25
    ensures Halved(TWO_53, 20) == 8_589_934_592.0 && Halved(0.5, 20) == 0.5 / 1_048_576.0
    ensures Halved(TWO_53, 22) == 2_147_483_648.0 && Halved(0.5, 22) == 0.125 / 1_048_576.0
    ensures Halved(TWO_53, 30) == 8_388_608.0 && Halved(0.5, 30) == 0.5 / 1_073_741_824.0
    ensures Halved(TWO_53, 31) == 4_194_304.0 && Halved(0.5, 31) == 0.25 / 1_073_741_824.0
  {
    HalvesOf(TWO_53);
    HalvesOf(0.5);
  }

  lemma HalvesOf(x: real)
    ensures Halved(x, 1) == x / 2.0
    ensures Halved(x, 20) == x / 1_048_576.0 && Halved(x, 22) == x / 4_194_304.0
    ensures Halved(x, 30) == x / 1_073_741_824.0 && Halved(x, 31) == x / 2_147_483_648.0
  {
    HalvedTen(x);
    HalvedAgain(x, 10, 10);
    HalvedTen(Halved(x, 10));
    HalvedAgain(x, 20, 10);
    HalvedTen(Halved(x, 20));
    HalvedAgain(x, 20, 2);
  }

  /** Times of at most 2^22 seconds, about 48 days, before or after the epoch. */
  predicate ShortTime(t: Timestamp) {
    -4_194_304_000_000_000 <= Nanos(t) <= 4_194_304_000_000_000
  }

  lemma NanosPart(nanos: u32)
    ensures var b := Round(nanos as real / 1_000_000_000.0);
            nanos as real - 0.5 <= b * 1_000_000_000.0 <= nanos as real + 0.5
    ensures 0.0 <= Round(nanos as real / 1_000_000_000.0) <= 5.0
  {
    Ulps();
    RoundWithin(nanos as real / 1_000_000_000.0, 30);
    if nanos == 0 {
      assert nanos as real / 1_000_000_000.0 == 0.0;
    }
  }

  /** The computed seconds of a short time are within a nanosecond. */
  lemma ShortSeconds(t: Timestamp)
    requires ShortTime(t)
    ensures var x := Seconds(t); Nanos(t) as real - 1.0 <= x * 1_000_000_000.0 <= Nanos(t) as real + 1.0
  {
    RoundInteger(t.seconds);
    NanosPart(t.nanos);
    Ulps();
    RoundWithin(t.seconds as real + Round(t.nanos as real / 1_000_000_000.0), 30);
  }

  /** Reading a number of microseconds of at most 2^22 seconds is exact. */
  lemma ShortReads(m: int)
    requires -4_194_304_000_000 <= m <= 4_194_304_000_000
    ensures RoundAway(Round(Round(m as real / 1_000_000.0) * 1_000_000_000.0)) == 1000 * m
  {
    Ulps();
    var seconds := Round(m as real / 1_000_000.0);
    RoundWithin(m as real / 1_000_000.0, 31);
    RoundWithin(seconds * 1_000_000_000.0, 1);
    RoundAwayIs(Round(seconds * 1_000_000_000.0), 1000 * m);
  }

  lemma TimestampNanos(n: i64)
    ensures TimestampOf(n).nanos < NANOS
    ensures Nanos(TimestampOf(n)) - n == 0 || Nanos(TimestampOf(n)) - n == NANOS
  {
    if n < 0 {
      var magnitude: int := n;
      var q, r := -magnitude / NANOS, -magnitude % NANOS;
      DivModUnique(n, NANOS, if r == 0 then -q else -q - 1, if r == 0 then 0 else NANOS - r);
    } else {
      DivModUnique(n, NANOS, n / NANOS, n % NANOS);
    }
  }

  /** A total that is less than a second off gives back a time only if it is that time. */
  lemma TotalReturnsIff(t: Timestamp, n: i64)
    requires -1000 <= n - Nanos(t) <= 1000
    ensures TimestampOf(n) == t <==> n == Nanos(t) && KeptTime(t)
  {
    TimestampNanos(n);
    if n == Nanos(t) {
      TimeKeptIff(t);
    }
  }

  lemma ShortReadBack(seconds: real, nanos: int, m: int)
    requires -4_194_304_000_000_000 <= nanos <= 4_194_304_000_000_000
    requires nanos as real - 1.0 <= seconds * 1_000_000_000.0 <= nanos as real + 1.0
    requires m == SignedMicros(seconds)
    ensures NanosOf(Finite(seconds < 0.0, Micros(seconds), 6)) == 1000 * m
    ensures -620 <= 1000 * m - nanos <= 620
  {
    MicrosNear(seconds, nanos);
    ShortReads(m);
    NanosOfMicros(seconds);
  }

  lemma MicrosOfNanos(t: Timestamp)
    ensures Nanos(t) % 1000 == t.nanos % 1000
  {
    assert Nanos(t) == 1000 * (t.seconds * 1_000_000) + t.nanos;
  }

  lemma WholeIff(m: int, nanos: int)
    requires -620 <= 1000 * m - nanos <= 620
    ensures 1000 * m == nanos <==> nanos % 1000 == 0
  {
  }

  /** Up to 2^22 seconds the log keeps exactly the whole microseconds. */
  lemma ShortTimeReturnsIff(t: Timestamp)
    requires ShortTime(t)
    ensures ReadBack(t) == t <==> KeptTime(t) && t.nanos % 1000 == 0
  {
    var m := SignedMicros(Seconds(t));
    ShortSeconds(t);
    ShortReadBack(Seconds(t), Nanos(t), m);
    TotalReturnsIff(t, 1000 * m);
    assert 1000 * m == Nanos(t) <==> t.nanos % 1000 == 0 by {
      WholeIff(m, Nanos(t));
      MicrosOfNanos(t);
    }
  }

  /** From July 2006 to January 2038. */
  predicate RecentTime(t: Timestamp) {
    1_152_921_505 <= t.seconds < 2_147_483_648
  }

  /** The computed seconds of a recent time are within 120 nanoseconds. */
  lemma RecentSeconds(t: Timestamp)
    requires RecentTime(t) && t.nanos < NANOS
    ensures var x := Seconds(t); Nanos(t) as real - 120.0 <= x * 1_000_000_000.0 <= Nanos(t) as real + 120.0
  {
    RoundInteger(t.seconds);
    NanosPart(t.nanos);
    Ulps();
    RoundWithin(t.seconds as real + Round(t.nanos as real / 1_000_000_000.0), 22);
  }

  /** Between 2^60 and 2^61 the numbers of binary64 are the multiples of 256. */
  lemma RoundLarge(x: real) returns (k: int)
    requires 256.0 * TWO_52 <= x < 256.0 * TWO_53
    ensures k == NearestEven(x / 256.0) && Round(x) == (256 * k) as real && RoundAway(Round(x)) == 256 * k
  {
    k := NearestEven(x / 256.0);
    TimesTwoFiveSix(x / 256.0);
    TimesTwoFiveSix(k as real);
    RoundDoubled(x / 256.0, 8);
    RoundAwayIs((256 * k) as real, 256 * k);
  }

  lemma TimesTwoFiveSix(x: real)
    ensures Doubled(x, 8) == 256.0 * x
  {
    assert Doubled(x, 1) == 2.0 * x;
    assert Doubled(x, 3) == 8.0 * x;
    assert Doubled(x, 4) == 16.0 * x;
    assert Doubled(x, 6) == 64.0 * x;
  }

  /** Reading a recent number of microseconds gives the multiple of 256 nanoseconds that is
      nearest to the rounded seconds. */
  lemma RecentReads(m: int) returns (k: int)
    requires 1_152_921_504_999_999 <= m <= 2_147_483_648_000_000
    ensures RoundAway(Round(Round(m as real / 1_000_000.0) * 1_000_000_000.0)) == 256 * k
    ensures -250 <= 256 * k - 1000 * m <= 250
    ensures forall j: int :: 256 * j == 1000 * m ==> k == j
  {
    Ulps();
    var seconds := Round(m as real / 1_000_000.0);
    RoundWithin(m as real / 1_000_000.0, 22);
    var x := seconds * 1_000_000_000.0;
    assert -119.3 <= x - (1000 * m) as real <= 119.3;
    k := RoundLarge(x);
    forall j: int | 256 * j == 1000 * m
      ensures k == j
    {
      NearestIs(x / 256.0, j);
    }
  }

  lemma RecentReadBack(seconds: real, nanos: int, m: int) returns (k: int)
    requires 1_152_921_505_000_000_000 <= nanos < 2_147_483_648_000_000_000
    requires nanos as real - 120.0 <= seconds * 1_000_000_000.0 <= nanos as real + 120.0
    requires m == SignedMicros(seconds)
    ensures NanosOf(Finite(seconds < 0.0, Micros(seconds), 6)) == 256 * k
    ensures -620 <= 1000 * m - nanos <= 620 && -250 <= 256 * k - 1000 * m <= 250
    ensures forall j: int :: 256 * j == 1000 * m ==> k == j
  {
    MicrosNear(seconds, nanos);
    k := RecentReads(m);
    NanosOfMicros(seconds);
  }

  /** A recent time comes back only as a multiple of 256 nanoseconds. */
  lemma RecentTotal(t: Timestamp) returns (m: int, k: int)
    requires RecentTime(t) && t.nanos < NANOS
    ensures -620 <= 1000 * m - Nanos(t) <= 620
    ensures forall j: int :: 256 * j == 1000 * m ==> k == j
    ensures ReadBack(t) == t <==> 256 * k == Nanos(t)
  {
    m := SignedMicros(Seconds(t));
    RecentSeconds(t);
    k := RecentReadBack(Seconds(t), Nanos(t), m);
    TotalReturnsIff(t, 256 * k);
  }

  lemma RecentNormalised(t: Timestamp)
    ensures ReadBack(t) == t ==> t.nanos < NANOS
  {
  }

  /** No recent time comes back unless its nanoseconds are a multiple of 256. */
  lemma RecentTimeReturnsOnlyIf(t: Timestamp)
    requires RecentTime(t) && ReadBack(t) == t
    ensures t.nanos < NANOS && Nanos(t) % 256 == 0
  {
    RecentNormalised(t);
    var m, k := RecentTotal(t);
    DivModUnique(Nanos(t), 256, k, 0);
  }

  /** Of the recent whole microseconds exactly the multiples of 256 nanoseconds come back,
      which is one in 32. */
  lemma RecentTimeReturnsIff(t: Timestamp)
    requires RecentTime(t) && t.nanos % 1000 == 0
    ensures ReadBack(t) == t <==> t.nanos < NANOS && Nanos(t) % 256 == 0
  {
    RecentNormalised(t);
    if t.nanos < NANOS {
      var m, k := RecentTotal(t);
      assert 1000 * m == Nanos(t) by {
        MicrosOfNanos(t);
        WholeIff(m, Nanos(t));
      }
      if Nanos(t) % 256 == 0 {
        assert 256 * (Nanos(t) / 256) == 1000 * m;
      }
    }
  }

  // ---- recent times in integers ----

  /** What a recent number of microseconds is read as: the seconds are rounded to a multiple
      of 2^-22, and their nanoseconds to a multiple of 256. */
  function RecentNanos(m: nat): nat {
    256 * NearestQuotient(NearestQuotient(m * 65_536, 15_625) * 1_953_125, 2_097_152)
  }

  lemma NearestFifteen(p: nat, x: real)
    requires x * 15_625.0 == p as real
    ensures NearestEven(x) == NearestQuotient(p, 15_625)
  {
  }

  lemma NearestTwentyOne(p: nat, x: real)
    requires x * 2_097_152.0 == p as real
    ensures NearestEven(x) == NearestQuotient(p, 2_097_152)
  {
  }

  /** Recent seconds are rounded to a multiple of 2^-22. */
  lemma RecentSecondsGrid(m: nat) returns (y: nat)
    requires 1_152_921_504_999_999 <= m <= 2_147_483_648_000_000
    ensures y == NearestQuotient(m * 65_536, 15_625)
    ensures Round(m as real / 1_000_000.0) == y as real / 4_194_304.0
  {
    var x := m as real * 65_536.0 / 15_625.0;
    NearestFifteen(m * 65_536, x);
    y := NearestEven(x);
    if m == 2_147_483_648_000_000 {
      NearestIs(x, 9_007_199_254_740_992);
      RoundInteger(2_147_483_648);
    } else {
      HalvesOf(x);
      HalvesOf(y as real);
      RoundHalved(x, 22);
    }
  }

  lemma GridNanos(y: nat, x: real)
    requires x == y as real / 4_194_304.0 * 1_000_000_000.0
    requires 256.0 * TWO_52 <= x < 256.0 * TWO_53
    ensures RoundAway(Round(x)) == 256 * NearestQuotient(y * 1_953_125, 2_097_152)
  {
    var k := RoundLarge(x);
    NearestTwentyOne(y * 1_953_125, x / 256.0);
  }

  lemma RecentReadsExactly(m: nat)
    requires 1_152_921_504_999_999 <= m <= 2_147_483_648_000_000
    ensures RoundAway(Round(Round(m as real / 1_000_000.0) * 1_000_000_000.0)) == RecentNanos(m)
    ensures -250 <= RecentNanos(m) - 1000 * m <= 250
  {
    var y := RecentSecondsGrid(m);
    var x := Round(m as real / 1_000_000.0) * 1_000_000_000.0;
    assert 256.0 * TWO_52 <= x < 256.0 * TWO_53 by {
      Ulps();
      RoundWithin(m as real / 1_000_000.0, 22);
    }
    GridNanos(y, x);
    var k := RecentReads(m);
  }

  /** The microsecond nearest to a number of nanoseconds. */
  function NearestMicro(nanos: nat): nat {
    (nanos + 500) / 1000
  }

  lemma NearestMicroIs(nanos: nat, m: nat)
    requires -499 <= 1000 * m - nanos <= 499
    ensures NearestMicro(nanos) == m
  {
  }

  /** A number close to a nanosecond that is close to a microsecond shows that microsecond. */
  lemma CloserMicros(seconds: real, nanos: int, m: nat)
    requires nanos as real - 120.0 <= seconds * 1_000_000_000.0 <= nanos as real + 120.0
    requires -250 <= nanos - 1000 * m <= 250 && m > 0
    ensures SignedMicros(seconds) == m
  {
    NearestIs(Magnitude(seconds) * 1_000_000.0, m);
  }

  lemma RecentExact(seconds: real, nanos: int, m: int)
    requires 1_152_921_505_000_000_000 <= nanos < 2_147_483_648_000_000_000
    requires nanos as real - 120.0 <= seconds * 1_000_000_000.0 <= nanos as real + 120.0
    requires m == SignedMicros(seconds)
    ensures m >= 0 && NanosOf(Finite(seconds < 0.0, Micros(seconds), 6)) == RecentNanos(m)
    ensures -250 <= RecentNanos(m) - 1000 * m <= 250 && -620 <= 1000 * m - nanos <= 620
  {
    MicrosNear(seconds, nanos);
    RecentReadsExactly(m);
    NanosOfMicros(seconds);
  }

  lemma NearestMicroNear(nanos: nat)
    ensures -500 <= 1000 * NearestMicro(nanos) - nanos <= 500
  {
  }

  lemma RecentMicroIff(seconds: real, nanos: int, m: int)
    requires 1_152_921_505_000_000_000 <= nanos < 2_147_483_648_000_000_000
    requires nanos as real - 120.0 <= seconds * 1_000_000_000.0 <= nanos as real + 120.0
    requires m == SignedMicros(seconds) >= 0 && -250 <= RecentNanos(m) - 1000 * m <= 250
    ensures RecentNanos(m) == nanos <==> RecentNanos(NearestMicro(nanos)) == nanos
  {
    var near := NearestMicro(nanos);
    NearestMicroNear(nanos);
    if RecentNanos(m) == nanos {
      NearestMicroIs(nanos, m);
    }
    if RecentNanos(near) == nanos {
      RecentReadsExactly(near);
      CloserMicros(seconds, nanos, near);
    }
  }

  /** Every recent time comes back exactly when it is what its nearest microsecond is read as,
      a test on integers. */
  lemma RecentTimeExactIff(t: Timestamp)
    requires RecentTime(t)
    ensures ReadBack(t) == t <==> t.nanos < NANOS && RecentNanos(NearestMicro(Nanos(t))) == Nanos(t)
  {
    RecentNormalised(t);
    if t.nanos < NANOS {
      var n, m := Nanos(t), SignedMicros(Seconds(t));
      RecentSeconds(t);
      RecentExact(Seconds(t), n, m);
      TotalReturnsIff(t, RecentNanos(m));
      RecentMicroIff(Seconds(t), n, m);
    }
  }

  lemma LostNanos(m: nat)
    requires m == 1_700_000_000_123_457
    ensures RecentNanos(m) == 1_700_000_000_123_457_024
  {
    assert NearestQuotient(m * 65_536, 15_625) == 7_130_316_800_517_816;
  }

  lemma WholeRecentReadBack(t: Timestamp, m: nat, total: i64)
    requires RecentTime(t) && t.nanos < NANOS && Nanos(t) == 1000 * m && total == RecentNanos(m)
    ensures ReadBack(t) == TimestampOf(total)
  {
    var x, n, shown := Seconds(t), Nanos(t), SignedMicros(Seconds(t));
    RecentSeconds(t);
    RecentExact(x, n, shown);
    assert shown == m;
    assert NanosOf(Finite(x < 0.0, Micros(x), 6)) == total;
  }

  lemma LostTimestamp(total: i64)
    requires total == 1_700_000_000_123_457_024
    ensures TimestampOf(total) == Timestamp(1_700_000_000, 123_457_024)
  {
  }

  /** A whole number of microseconds in November 2023 is read back 24 nanoseconds later. */
  lemma RecentTimeLost(t: Timestamp)
    requires t.seconds == 1_700_000_000 && t.nanos == 123_457_000
    ensures ReadBack(t) == Timestamp(1_700_000_000, 123_457_024)
  {
    var m, total: i64 := 1_700_000_000_123_457, 1_700_000_000_123_457_024;
    LostNanos(m);
    WholeRecentReadBack(t, m, total);
    LostTimestamp(total);
  }
}
