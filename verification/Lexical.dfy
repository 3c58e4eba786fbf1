/** The text primitives of the ASC format: lines, tokens, and numbers in radix 10 and 16. */
module Lexical {
  import opened Bits
  import opened Wrappers
  import opened Core

  // ---- white space and tokens ----

  predicate IsSpace(c: char) {
    c == ' ' || 9 <= c as int <= 13
  }

  function TrimStart(s: text): text {
    if s != [] && IsSpace(s[0]) then TrimStart(s[1..]) else s
  }

  function TrimEnd(s: text): text {
    if s != [] && IsSpace(s[|s| - 1]) then TrimEnd(s[..|s| - 1]) else s
  }

  function Trim(s: text): text {
    TrimEnd(TrimStart(s))
  }

  function WordLength(s: text): (n: nat)
    ensures n <= |s|
    ensures forall k | 0 <= k < n :: !IsSpace(s[k])
    ensures n < |s| ==> IsSpace(s[n])
  {
    if s == [] || IsSpace(s[0]) then 0 else 1 + WordLength(s[1..])
  }

  /** `split_whitespace`. */
  function Tokens(s: text): seq<text> {
    if s == [] then []
    else if IsSpace(s[0]) then Tokens(s[1..])
    else [s[..WordLength(s)]] + Tokens(s[WordLength(s)..])
  }

  predicate IsWord(s: text) {
    s != [] && forall k | 0 <= k < |s| :: !IsSpace(s[k])
  }

  predicate AllWords(words: seq<text>) {
    forall k | 0 <= k < |words| :: IsWord(words[k])
  }

  lemma {:induction false} WordLengthPrefix(a: text, b: text)
    requires b != [] && IsSpace(b[0])
    ensures WordLength(a + b) == WordLength(a)
  {
    if a != [] && !IsSpace(a[0]) {
      assert (a + b)[1..] == a[1..] + b;
      WordLengthPrefix(a[1..], b);
    }
  }

  /** A white-space character separates tokens wherever it stands. */
  lemma {:induction false} TokensSplit(a: text, sep: ascii, b: text)
    requires IsSpace(sep)
    ensures Tokens(a + [sep] + b) == Tokens(a) + Tokens(b)
    decreases |a|
  {
    var s := a + [sep] + b;
    if a == [] {
      assert s[1..] == b;
    } else if IsSpace(a[0]) {
      assert s[1..] == a[1..] + [sep] + b;
      TokensSplit(a[1..], sep, b);
    } else {
      var n := WordLength(a);
      assert s == a + ([sep] + b);
      WordLengthPrefix(a, [sep] + b);
      assert s[..n] == a[..n] && s[n..] == a[n..] + [sep] + b;
      TokensSplit(a[n..], sep, b);
    }
  }

  lemma TokensOfWord(w: text)
    requires IsWord(w)
    ensures Tokens(w) == [w]
  {
    assert WordLength(w) == |w|;
    assert w[..|w|] == w && w[|w|..] == [];
    assert Tokens(w[|w|..]) == [];
  }

  lemma {:induction false} TokensTrimStart(s: text)
    ensures Tokens(TrimStart(s)) == Tokens(s)
  {
    if s != [] && IsSpace(s[0]) {
      TokensTrimStart(s[1..]);
    }
  }

  lemma {:induction false} TokensTrimEnd(s: text)
    ensures Tokens(TrimEnd(s)) == Tokens(s)
  {
    if s != [] && IsSpace(s[|s| - 1]) {
      TokensTrimEnd(s[..|s| - 1]);
      TokensSplit(s[..|s| - 1], s[|s| - 1], []);
      assert s[..|s| - 1] + [s[|s| - 1]] + [] == s;
    }
  }

  lemma TokensTrim(s: text)
    ensures Tokens(Trim(s)) == Tokens(s)
  {
    TokensTrimStart(s);
    TokensTrimEnd(TrimStart(s));
  }

  lemma {:induction false} TrimEndKeepsStart(s: text)
    requires s != [] && !IsSpace(s[0])
    ensures TrimEnd(s) != [] && TrimEnd(s)[0] == s[0]
  {
    if IsSpace(s[|s| - 1]) {
      TrimEndKeepsStart(s[..|s| - 1]);
    }
  }

  function Spaces(n: nat): (s: text)
    ensures |s| == n && forall k | 0 <= k < n :: s[k] == ' '
  {
    seq(n, _ => ' ')
  }

  lemma {:induction false} TrimStartSpaces(n: nat, s: text)
    requires s != [] && !IsSpace(s[0])
    ensures TrimStart(Spaces(n) + s) == s
  {
    if n == 0 {
      assert Spaces(n) + s == s;
    } else {
      assert (Spaces(n) + s)[1..] == Spaces(n - 1) + s;
      TrimStartSpaces(n - 1, s);
    }
  }

  /** Words joined by single spaces. */
  function Joined(words: seq<text>): text {
    if words == [] then []
    else if |words| == 1 then words[0]
    else words[0] + [' '] + Joined(words[1..])
  }

  lemma {:induction false} TokensOfJoined(words: seq<text>)
    requires AllWords(words)
    ensures Tokens(Joined(words)) == words
  {
    if words != [] {
      TokensOfWord(words[0]);
      if |words| > 1 {
        TokensSplit(words[0], ' ', Joined(words[1..]));
        TokensOfJoined(words[1..]);
      }
    }
  }

  // ---- lines ----

  predicate OnOneLine(s: text) {
    forall k | 0 <= k < |s| :: s[k] != '\n' && s[k] != '\r'
  }

  /** `writeln!` of every line. */
  function Unlines(lines: seq<text>): text {
    if lines == [] then [] else lines[0] + ['\n'] + Unlines(lines[1..])
  }

  lemma {:induction false} UnlinesAppend(a: seq<text>, b: seq<text>)
    ensures Unlines(a + b) == Unlines(a) + Unlines(b)
  {
    if a == [] {
      assert a + b == b;
    } else {
      assert (a + b)[1..] == a[1..] + b;
      UnlinesAppend(a[1..], b);
    }
  }

  lemma UnlinesSnoc(lines: seq<text>, line: text)
    ensures Unlines(lines + [line]) == Unlines(lines) + line + ['\n']
  {
    UnlinesAppend(lines, [line]);
    assert Unlines([line]) == line + ['\n'] + [];
  }

  function LineLength(s: text): (n: nat)
    ensures n <= |s|
    ensures n < |s| ==> s[n] == '\n'
    ensures forall k | 0 <= k < n :: s[k] != '\n'
  {
    if s == [] || s[0] == '\n' then 0 else 1 + LineLength(s[1..])
  }

  function DropCarriageReturn(s: text): text {
    if s != [] && s[|s| - 1] == '\r' then s[..|s| - 1] else s
  }

  /** `BufRead::lines`: splits at line feeds, and drops a carriage return before one. */
  function Lines(s: text): seq<text> {
    if s == [] then []
    else
      var n := LineLength(s);
      if n == |s| then [s] else [DropCarriageReturn(s[..n])] + Lines(s[n + 1..])
  }

  lemma {:induction false} LineLengthOf(line: text, rest: text)
    requires OnOneLine(line)
    ensures LineLength(line + ['\n'] + rest) == |line|
  {
    var s := line + ['\n'] + rest;
    if line != [] {
      assert s[1..] == line[1..] + ['\n'] + rest;
      LineLengthOf(line[1..], rest);
    }
  }

  lemma {:induction false} LinesOfUnlines(lines: seq<text>)
    requires forall k | 0 <= k < |lines| :: OnOneLine(lines[k])
    ensures Lines(Unlines(lines)) == lines
  {
    if lines != [] {
      var s, rest := Unlines(lines), Unlines(lines[1..]);
      LineLengthOf(lines[0], rest);
      assert s[..|lines[0]|] == lines[0] && s[|lines[0]| + 1..] == rest;
      LinesOfUnlines(lines[1..]);
    }
  }

  // ---- numbers ----

  function DigitValue(c: char): nat {
    if '0' <= c <= '9' then c as int - '0' as int
    else if 'a' <= c <= 'z' then c as int - 'a' as int + 10
    else if 'A' <= c <= 'Z' then c as int - 'A' as int + 10
    else 36
  }

  function Digit(d: nat): ascii
    requires d < 16
  {
    if d < 10 then ('0' as int + d) as char else ('A' as int + d - 10) as char
  }

  lemma DigitRoundTrip(d: nat)
    requires d < 16
    ensures DigitValue(Digit(d)) == d && !IsSpace(Digit(d)) && Digit(d) != '+' && Digit(d) != '-' && Digit(d) != '.'
  {
  }

  /** The value of a string of digits, most significant first. */
  function DigitsValue(s: text, radix: nat): Option<nat> {
    if s == [] then Some(0)
    else
      var front, d := DigitsValue(s[..|s| - 1], radix), DigitValue(s[|s| - 1]);
      if front.Some? && d < radix then Some(front.value * radix + d) else None
  }

  /** `from_str_radix` for an unsigned type with the given largest value. */
  function ParseUnsigned(s: text, radix: nat, max: nat): Option<nat> {
    var digits := if s != [] && s[0] == '+' then s[1..] else s;
    if digits == [] then None
    else
      var v := DigitsValue(digits, radix);
      if v.Some? && v.value <= max then v else None
  }

  /** Decimal, or upper-case hexadecimal, with at least one digit. */
  function Format(n: nat, radix: nat): (s: text)
    requires 2 <= radix <= 16
    ensures |s| >= 1
    decreases n
  {
    if n < radix then [Digit(n)] else Format(n / radix, radix) + [Digit(n % radix)]
  }

  /** Exactly `width` digits, as `{:0width$X}` writes a number that fits. */
  function FormatFixed(n: nat, radix: nat, width: nat): (s: text)
    requires 2 <= radix <= 16
    ensures |s| == width
    decreases width
  {
    if width == 0 then [] else FormatFixed(n / radix, radix, width - 1) + [Digit(n % radix)]
  }

  function Power(radix: nat, width: nat): nat
    decreases width
  {
    if width == 0 then 1 else radix * Power(radix, width - 1)
  }

  predicate AllDigits(s: text) {
    forall k | 0 <= k < |s| :: !IsSpace(s[k]) && s[k] != '+' && s[k] != '-' && s[k] != '.' && s[k] != 'x'
  }

  lemma DivRecompose(n: nat, radix: nat)
    requires radix >= 2
    ensures n / radix * radix + n % radix == n && n % radix < radix
  {
  }

  lemma DigitsSnoc(front: text, v: nat, d: nat, radix: nat)
    requires DigitsValue(front, radix) == Some(v) && AllDigits(front)
    requires d < radix <= 16
    ensures DigitsValue(front + [Digit(d)], radix) == Some(v * radix + d) && AllDigits(front + [Digit(d)])
  {
    DigitRoundTrip(d);
    assert (front + [Digit(d)])[..|front|] == front;
  }

  lemma DivBelowPower(n: nat, radix: nat, p: nat)
    requires radix >= 2 && n < radix * p
    ensures n / radix < p
  {
    DivRecompose(n, radix);
    if n / radix >= p {
      MulAtLeast(n / radix - p + 1, radix);
    }
  }

  lemma QuotientBelow(n: nat, radix: nat)
    requires 2 <= radix <= n
    ensures n / radix < n
  {
    MulAtLeast(radix - 1, n);
    assert radix * n == (radix - 1) * n + n;
    DivBelowPower(n, radix, n);
  }

  lemma FormatUnfolds(n: nat, radix: nat, q: nat, r: nat)
    requires 2 <= radix <= n && radix <= 16
    requires q == n / radix && r == n % radix
    ensures r < radix && Format(n, radix) == Format(q, radix) + [Digit(r)]
  {
  }

  lemma FormatStep(n: nat, radix: nat) returns (q: nat, r: nat)
    requires 2 <= radix <= n && radix <= 16
    ensures q < n && r < radix && q * radix + r == n
    ensures Format(n, radix) == Format(q, radix) + [Digit(r)]
  {
    q, r := n / radix, n % radix;
    DivRecompose(n, radix);
    QuotientBelow(n, radix);
    FormatUnfolds(n, radix, q, r);
  }

  lemma {:induction false} FormatRoundTrip(n: nat, radix: nat)
    requires 2 <= radix <= 16
    ensures DigitsValue(Format(n, radix), radix) == Some(n) && AllDigits(Format(n, radix))
    decreases n
  {
    if n < radix {
      DigitsSnoc([], 0, n, radix);
      assert [] + [Digit(n)] == [Digit(n)];
    } else {
      var q, r := FormatStep(n, radix);
      FormatRoundTrip(q, radix);
      DigitsSnoc(Format(q, radix), q, r, radix);
    }
  }

  lemma {:induction false} FixedRoundTrip(n: nat, radix: nat, width: nat)
    requires 2 <= radix <= 16 && n < Power(radix, width)
    ensures DigitsValue(FormatFixed(n, radix, width), radix) == Some(n) && AllDigits(FormatFixed(n, radix, width))
    decreases width
  {
    if width > 0 {
      var w, q, r := width - 1, n / radix, n % radix;
      DivBelowPower(n, radix, Power(radix, w));
      FixedRoundTrip(q, radix, w);
      DigitsSnoc(FormatFixed(q, radix, w), q, r, radix);
      DivRecompose(n, radix);
    }
  }

  lemma ParseDigits(s: text, radix: nat, n: nat, max: nat)
    requires s != [] && AllDigits(s) && DigitsValue(s, radix) == Some(n) && n <= max
    ensures ParseUnsigned(s, radix, max) == Some(n)
  {
  }
}
