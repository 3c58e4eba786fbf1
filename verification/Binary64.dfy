/** Rounding to the 53 significant bits of IEEE 754 binary64, without limits on the exponent. */
module Binary64 {

  const TWO_52: real := 4503599627370496.0
  const TWO_53: real := 9007199254740992.0

  function Magnitude(x: real): real {
    if x < 0.0 then -x else x
  }

  /** The nearest integer; a tie goes to the even one. */
  function NearestEven(x: real): (n: int)
    ensures x - 0.5 <= n as real <= x + 0.5
    ensures x >= 0.0 ==> n >= 0
  {
    var f := x.Floor;
    var d := x - f as real;
    if d < 0.5 || (d == 0.5 && f % 2 == 0) then f else f + 1
  }

  /** `f64::round`: the nearest integer; a tie goes away from zero. */
  function RoundAway(x: real): int {
    if x < 0.0 then -((0.5 - x).Floor) else (x + 0.5).Floor
  }

  lemma HalvesQuotient(x: real)
    requires 0.0 < x < TWO_52
    ensures (TWO_53 / (2.0 * x)).Floor < (TWO_53 / x).Floor
    ensures (TWO_53 / x).Floor > 0
  {
    var y := TWO_53 / x;
    assert y * x == TWO_53;
    assert TWO_53 / (2.0 * x) == y / 2.0;
    if y <= 2.0 {
      assert y * x <= 2.0 * x;
    }
  }

  function Steps(x: real): int
    requires x > 0.0
  {
    if x >= TWO_53 then x.Floor else if x < TWO_52 then (TWO_53 / x).Floor else 0
  }

  /** A positive number is scaled by powers of two until its ulp is one. */
  function RoundPositive(x: real): real
    requires x > 0.0
    decreases Steps(x)
  {
    if x >= TWO_53 then 2.0 * RoundPositive(x / 2.0)
    else if x < TWO_52 then
      HalvesQuotient(x);
      RoundPositive(2.0 * x) / 2.0
    else NearestEven(x) as real
  }

  /** The nearest binary64 number, ties to even. */
  function Round(x: real): real {
    if x == 0.0 then 0.0 else if x < 0.0 then -RoundPositive(-x) else RoundPositive(x)
  }

  lemma NearestIs(x: real, n: int)
    requires n as real - 0.5 < x < n as real + 0.5
    ensures NearestEven(x) == n
  {
  }

  lemma RoundAwayIs(x: real, n: int)
    requires n as real - 0.5 < x < n as real + 0.5
    ensures RoundAway(x) == n
  {
  }

  /** Where two integers are equally near, the even one is taken, or the one away from zero. */
  lemma Ties(x: real, f: int)
    requires x == f as real + 0.5
    ensures NearestEven(x) % 2 == 0
    ensures RoundAway(x) == if f >= 0 then f + 1 else f
  {
    assert x.Floor == f;
  }

  // ---- how near ----

  /** `x / 2^k`. */
  function Halved(x: real, k: nat): real {
    if k == 0 then x else Halved(x, k - 1) / 2.0
  }

  lemma {:induction false} WithinHalf(x: real)
    requires 0.0 < x <= TWO_53
    ensures x - 0.5 <= RoundPositive(x) <= x + 0.5
    ensures x == x.Floor as real ==> RoundPositive(x) == x
    decreases Steps(x)
  {
    if x == TWO_53 {
      NearestIs(TWO_52, 4503599627370496);
    } else if x < TWO_52 {
      HalvesQuotient(x);
      assert x == x.Floor as real ==> 2.0 * x == (2 * x.Floor) as real;
      WithinHalf(2.0 * x);
    } else if x == x.Floor as real {
      NearestIs(x, x.Floor);
    }
  }

  lemma {:induction false} HalvedOrder(x: real, y: real, k: nat)
    requires 0.0 < x <= y
    ensures 0.0 < Halved(x, k) <= Halved(y, k) <= y
  {
    if k > 0 {
      HalvedOrder(x, y, k - 1);
    }
  }

  lemma {:induction false} HalvedAgain(x: real, j: nat, k: nat)
    ensures Halved(x, j + k) == Halved(Halved(x, j), k)
  {
    if k > 0 {
      HalvedAgain(x, j, k - 1);
    }
  }

  lemma HalvedTen(x: real)
    ensures Halved(x, 10) == x / 1024.0
  {
    assert Halved(x, 1) == x / 2.0;
    assert Halved(x, 3) == x / 8.0;
    assert Halved(x, 4) == x / 16.0;
    assert Halved(x, 6) == x / 64.0;
    assert Halved(x, 8) == x / 256.0;
  }

  /** A number of at most `2^53 / 2^k` is rounded by at most half of `1 / 2^k`. */
  lemma {:induction false} WithinUlp(x: real, k: nat)
    requires 0.0 < x <= Halved(TWO_53, k)
    ensures x - Halved(0.5, k) <= RoundPositive(x) <= x + Halved(0.5, k)
    decreases k
  {
    if k == 0 {
      WithinHalf(x);
    } else {
      var j := k - 1;
      HalvedOrder(TWO_53, TWO_53, j);
      HalvedOrder(0.5, 0.5, j);
      if x == TWO_52 {
        WithinHalf(x);
      } else {
        WithinUlp(2.0 * x, j);
      }
    }
  }

  lemma RoundWithin(x: real, k: nat)
    requires Magnitude(x) <= Halved(TWO_53, k)
    ensures x - Halved(0.5, k) <= Round(x) <= x + Halved(0.5, k)
  {
    HalvedOrder(0.5, 0.5, k);
    if x > 0.0 {
      WithinUlp(x, k);
    } else if x < 0.0 {
      WithinUlp(-x, k);
    }
  }

  lemma {:induction false} PositiveRelative(x: real)
    requires x > 0.0
    ensures TWO_53 * Magnitude(RoundPositive(x) - x) <= x
    decreases Steps(x)
  {
    if x >= TWO_53 {
      PositiveRelative(x / 2.0);
    } else if x < TWO_52 {
      HalvesQuotient(x);
      PositiveRelative(2.0 * x);
    } else {
      assert -0.5 <= RoundPositive(x) - x <= 0.5;
    }
  }

  /** The relative error is at most `2^-53`. */
  lemma RoundRelative(x: real)
    ensures TWO_53 * Magnitude(Round(x) - x) <= Magnitude(x)
  {
    if x > 0.0 {
      PositiveRelative(x);
    } else if x < 0.0 {
      PositiveRelative(-x);
    }
  }

  lemma RoundInteger(n: int)
    requires -9007199254740992 <= n <= 9007199254740992
    ensures Round(n as real) == n as real
  {
    if n > 0 {
      WithinHalf(n as real);
    } else if n < 0 {
      WithinHalf(-n as real);
    }
  }

  /** `x * 2^k`. */
  function Doubled(x: real, k: nat): real {
    if k == 0 then x else 2.0 * Doubled(x, k - 1)
  }

  /** From `2^52` on, the ulp is the power of two that brings the number back below `2^53`. */
  lemma {:induction false} RoundDoubled(x: real, k: nat)
    requires TWO_52 <= x < TWO_53
    ensures Doubled(x, k) >= x && RoundPositive(Doubled(x, k)) == Doubled(NearestEven(x) as real, k)
  {
    if k > 0 {
      RoundDoubled(x, k - 1);
    }
  }

  /** Below `2^52` the ulp is the power of two that brings the number up to `2^52`. */
  lemma {:induction false} RoundHalved(x: real, k: nat)
    requires TWO_52 <= x < TWO_53
    ensures 0.0 < Halved(x, k) <= x && RoundPositive(Halved(x, k)) == Halved(NearestEven(x) as real, k)
  {
    if k > 0 {
      RoundHalved(x, k - 1);
    }
  }

  /** The integer nearest to `p / q`; a tie goes to the even one. */
  function NearestQuotient(p: nat, q: nat): nat
    requires q > 0
  {
    var f, r := p / q, p % q;
    if 2 * r < q || (2 * r == q && f % 2 == 0) then f else f + 1
  }

  // ---- what rounding is for ----

  /** A significand of at most 53 bits times a power of two. */
  ghost predicate Representable(y: real) {
    exists m: int, k: nat :: HasForm(y, m, k)
  }

  predicate HasForm(y: real, m: int, k: nat) {
    -0x20_0000_0000_0000 <= m <= 0x20_0000_0000_0000 && (y == Doubled(m as real, k) || y == Halved(m as real, k))
  }

  lemma TwiceRepresentable(y: real)
    requires Representable(y)
    ensures Representable(2.0 * y)
  {
    var m: int, k: nat :| HasForm(y, m, k);
    if y == Doubled(m as real, k) {
      assert HasForm(2.0 * y, m, k + 1);
    } else {
      assert HasForm(2.0 * y, m, k - 1);
    }
  }

  lemma HalfRepresentable(y: real)
    requires Representable(y)
    ensures Representable(y / 2.0)
  {
    var m: int, k: nat :| HasForm(y, m, k);
    if y == Halved(m as real, k) {
      assert HasForm(y / 2.0, m, k + 1);
    } else {
      assert HasForm(y / 2.0, m, k - 1);
    }
  }

  lemma {:induction false} DoubledInteger(m: int, k: nat) returns (n: int)
    ensures Doubled(m as real, k) == n as real
  {
    n := m;
    if k > 0 {
      n := DoubledInteger(m, k - 1);
      n := 2 * n;
    }
  }

  lemma {:induction false} HalvedBelow(m: int, k: nat)
    requires m <= 0x20_0000_0000_0000 && k >= 1
    ensures Halved(m as real, k) <= TWO_52
  {
    if k > 1 {
      HalvedBelow(m, k - 1);
    }
  }

  lemma OthersFurther(x: real, m: int, n: int)
    requires x - 0.5 <= m as real <= x + 0.5
    ensures Magnitude(m as real - x) <= Magnitude(n as real - x)
  {
    if n > m {
      assert n as real >= m as real + 1.0;
    } else if n < m {
      assert n as real <= m as real - 1.0;
    }
  }

  lemma NearerThan(x: real, n: int)
    ensures Magnitude(NearestEven(x) as real - x) <= Magnitude(n as real - x)
  {
    var m := NearestEven(x);
    OthersFurther(x, m, n);
  }

  /** Where the ulp is one, no representable number is nearer than the nearest integer. */
  lemma UnitNearest(x: real, y: real)
    requires TWO_52 <= x < TWO_53 && Representable(y)
    ensures Magnitude(NearestEven(x) as real - x) <= Magnitude(y - x)
  {
    var m: int, k: nat :| HasForm(y, m, k);
    if y == Doubled(m as real, k) || k == 0 {
      var n := DoubledInteger(m, k);
      NearerThan(x, n);
    } else {
      HalvedBelow(m, k);
      NearerThan(x, 4503599627370496);
    }
  }

  lemma {:induction false} PositiveNearest(x: real, y: real)
    requires x > 0.0 && Representable(y)
    ensures Representable(RoundPositive(x))
    ensures Magnitude(RoundPositive(x) - x) <= Magnitude(y - x)
    decreases Steps(x)
  {
    if x >= TWO_53 {
      HalfRepresentable(y);
      PositiveNearest(x / 2.0, y / 2.0);
      TwiceRepresentable(RoundPositive(x / 2.0));
    } else if x < TWO_52 {
      HalvesQuotient(x);
      TwiceRepresentable(y);
      PositiveNearest(2.0 * x, 2.0 * y);
      HalfRepresentable(RoundPositive(2.0 * x));
    } else {
      UnitNearest(x, y);
      assert HasForm(RoundPositive(x), NearestEven(x), 0);
    }
  }

  lemma {:induction false} OppositeScaled(m: int, k: nat)
    ensures Doubled(-m as real, k) == -Doubled(m as real, k) && Halved(-m as real, k) == -Halved(m as real, k)
  {
    if k > 0 {
      OppositeScaled(m, k - 1);
    }
  }

  lemma OppositeRepresentable(y: real)
    requires Representable(y)
    ensures Representable(-y)
  {
    var m: int, k: nat :| HasForm(y, m, k);
    OppositeScaled(m, k);
    assert HasForm(-y, -m, k);
  }

  /** Rounding gives a representable number, and no other is nearer. */
  lemma RoundIsNearest(x: real, y: real)
    requires Representable(y)
    ensures Representable(Round(x))
    ensures Magnitude(Round(x) - x) <= Magnitude(y - x)
  {
    if x > 0.0 {
      PositiveNearest(x, y);
    } else if x < 0.0 {
      OppositeRepresentable(y);
      PositiveNearest(-x, -y);
      OppositeRepresentable(RoundPositive(-x));
    } else {
      assert HasForm(0.0, 0, 0);
    }
  }
}
