/** Unsigned machine arithmetic on natural numbers: shifts, masks, disjunctions and
    the casts the repository uses, with the lemmas that turn them into div and mod. */
module Bits {

  type byte = x: int | 0 <= x < 256

  const TWO_TO_THE_32: nat := 0x1_0000_0000
  const TWO_TO_THE_64: nat := 0x1_0000_0000_0000_0000

  function Zeros(n: nat): (z: seq<byte>)
    ensures |z| == n && forall k | 0 <= k < n :: z[k] == 0
  {
    seq(n, _ => 0)
  }

  function Pow2(n: nat): (r: nat)
    ensures r > 0
  {
    if n == 0 then 1 else 2 * Pow2(n - 1)
  }

  /** Bitwise `|` of two unsigned numbers. */
  function Or(a: nat, b: nat): nat
    decreases a + b
  {
    if a == 0 && b == 0 then 0
    else (if a % 2 == 1 || b % 2 == 1 then 1 else 0) + 2 * Or(a / 2, b / 2)
  }

  /** Bitwise `&` of two unsigned numbers. */
  function And(a: nat, b: nat): nat
    decreases a
  {
    if a == 0 then 0
    else (if a % 2 == 1 && b % 2 == 1 then 1 else 0) + 2 * And(a / 2, b / 2)
  }

  /** `a << k` without a width limit. */
  function Shl(a: nat, k: nat): nat {
    if k == 0 then a else 2 * Shl(a, k - 1)
  }

  function Shr(a: nat, k: nat): nat {
    if k == 0 then a else Shr(a / 2, k - 1)
  }

  /** `a << k` in a 64-bit word: bits shifted past the top are lost. */
  function Shl64(a: nat, k: nat): nat {
    Shl(a, k) % TWO_TO_THE_64
  }

  /** `raw as i64` for a 64-bit word. */
  function AsI64(raw: nat): int {
    if raw >= TWO_TO_THE_64 / 2 then raw - TWO_TO_THE_64 else raw
  }

  /** Bit `k` of `x`, as 0 or 1. */
  function Bit(x: nat, k: nat): (b: nat)
    ensures b <= 1
  {
    Shr(x, k) % 2
  }

  // ---- div and mod by powers of two ----

  lemma MulAtLeast(n: int, d: int)
    requires n >= 1 && d >= 0
    ensures n * d >= d
  {
    assert n * d == (n - 1) * d + d;
    assert (n - 1) * d >= 0;
  }

  lemma SameQuotient(d: int, q: int, r: int, q': int, r': int)
    requires 0 <= r < d && 0 <= r' < d && q * d + r == q' * d + r'
    ensures q == q' && r == r'
  {
    assert (q - q') * d == r' - r;
    if q > q' {
      MulAtLeast(q - q', d);
    } else if q < q' {
      assert (q' - q) * d == r - r';
      MulAtLeast(q' - q, d);
    }
  }

  lemma DivModUnique(x: int, d: int, q: int, r: int)
    requires 0 <= r < d && x == q * d + r
    ensures x / d == q && x % d == r
  {
    SameQuotient(d, q, r, x / d, x % d);
  }

  lemma {:induction false} Pow2Add(a: nat, b: nat)
    ensures Pow2(a + b) == Pow2(a) * Pow2(b)
  {
    if a == 0 {
    } else {
      Pow2Add(a - 1, b);
      assert Pow2(a + b) == 2 * Pow2(a - 1 + b);
    }
  }

  lemma {:induction false} Pow2Monotone(a: nat, b: nat)
    requires a <= b
    ensures Pow2(a) <= Pow2(b)
  {
    Pow2Add(a, b - a);
    assert Pow2(a) * 1 <= Pow2(a) * Pow2(b - a);
  }

  /** Dividing in two stages, and splitting off the low `a` bits. */
  lemma SplitAt(x: nat, a: nat, b: nat)
    ensures x / Pow2(a + b) == x / Pow2(a) / Pow2(b)
    ensures x % Pow2(a + b) == x % Pow2(a) + Pow2(a) * (x / Pow2(a) % Pow2(b))
  {
    Pow2Add(a, b);
    DivModProduct(x, Pow2(a), Pow2(b));
  }

  lemma ProductBelow(lo: nat, hl: nat, p: nat, q: nat)
    requires lo < p && hl < q
    ensures p * hl + lo < p * q
  {
    assert p * q == p * (hl + 1) + p * (q - hl - 1);
    assert p * (q - hl - 1) >= 0;
    assert p * (hl + 1) == p * hl + p;
  }

  lemma Nested(hh: int, q: int, hl: int, p: int, lo: int)
    ensures (hh * q + hl) * p + lo == hh * (p * q) + (p * hl + lo)
  {
  }

  lemma DivModProduct(x: nat, p: nat, q: nat)
    requires p > 0 && q > 0
    ensures p * q > 0
    ensures x / (p * q) == x / p / q
    ensures x % (p * q) == x % p + p * (x / p % q)
  {
    var hi, lo := x / p, x % p;
    var hh, hl := hi / q, hi % q;
    ProductBelow(lo, hl, p, q);
    Nested(hh, q, hl, p, lo);
    DivModUnique(x, p * q, hh, p * hl + lo);
  }

  lemma ModLess(x: nat, k: nat)
    requires x < Pow2(k)
    ensures x % Pow2(k) == x && x / Pow2(k) == 0
  {
    DivModUnique(x, Pow2(k), 0, x);
  }

  lemma {:induction false} ShrIsDiv(a: nat, k: nat)
    ensures Shr(a, k) == a / Pow2(k)
    decreases k
  {
    if k == 0 {
    } else {
      ShrIsDiv(a / 2, k - 1);
      SplitAt(a, 1, k - 1);
      assert Pow2(1) == 2;
    }
  }

  lemma {:induction false} ShrTwice(x: nat, a: nat, b: nat)
    ensures Shr(Shr(x, a), b) == Shr(x, a + b)
    decreases a
  {
    if a == 0 {
    } else {
      ShrTwice(x / 2, a - 1, b);
    }
  }

  /** One more bit of `x % 2^k`. */
  lemma NextBit(x: nat, k: nat)
    ensures x % Pow2(k + 1) == x % Pow2(k) + Pow2(k) * Bit(x, k)
  {
    ShrIsDiv(x, k);
    SplitAt(x, k, 1);
    assert Pow2(1) == 2;
  }

  lemma BitShifted(x: nat, a: nat, k: nat)
    ensures Bit(Shr(x, a), k) == Bit(x, a + k)
  {
    ShrTwice(x, a, k);
  }

  /** Removing the lowest bit commutes with keeping the low ones. */
  lemma HalfOfMod(x: nat, n: nat)
    requires n > 0
    ensures x % Pow2(n) / 2 == x / 2 % Pow2(n - 1) && x % Pow2(n) % 2 == x % 2
  {
    SplitAt(x, 1, n - 1);
    assert Pow2(1) == 2;
  }

  lemma {:induction false} BitOfMod(x: nat, k: nat, n: nat)
    requires k < n
    ensures Bit(x % Pow2(n), k) == Bit(x, k)
    decreases k
  {
    HalfOfMod(x, n);
    if k == 0 {
    } else {
      BitOfMod(x / 2, k - 1, n - 1);
    }
  }

  /** A number below `2^n` is determined by its `n` bits. */
  lemma {:induction false} EqualBits(x: nat, y: nat, n: nat)
    requires x < Pow2(n) && y < Pow2(n)
    requires forall k | 0 <= k < n :: Bit(x, k) == Bit(y, k)
    ensures x == y
    decreases n
  {
    if n == 0 {
    } else {
      assert Bit(x, 0) == Bit(y, 0);
      forall k | 0 <= k < n - 1
        ensures Bit(x / 2, k) == Bit(y / 2, k)
      {
        assert Bit(x, k + 1) == Bit(y, k + 1);
      }
      EqualBits(x / 2, y / 2, n - 1);
    }
  }

  lemma {:induction false} ShlIsTimes(a: nat, k: nat)
    ensures Shl(a, k) == a * Pow2(k)
  {
    if k == 0 {
    } else {
      ShlIsTimes(a, k - 1);
    }
  }

  lemma {:induction false} PowerBit(k: nat)
    ensures Bit(Pow2(k), k) == 1
  {
    if k == 0 {
    } else {
      PowerBit(k - 1);
    }
  }

  lemma {:induction false} ZeroBit(k: nat)
    ensures Bit(0, k) == 0
  {
    if k == 0 {
    } else {
      ZeroBit(k - 1);
    }
  }

  // ---- bitwise operators ----

  lemma {:induction false} OrZero(b: nat)
    ensures Or(0, b) == b
  {
    if b == 0 {
    } else {
      OrZero(b / 2);
    }
  }

  /** Or-ing in a value whose low bits are clear is addition. */
  lemma {:induction false} OrShifted(a: nat, m: nat, k: nat)
    requires a < Pow2(k)
    ensures Or(a, Shl(m, k)) == a + Shl(m, k)
    decreases k
  {
    if k == 0 {
      OrZero(m);
    } else {
      OrShifted(a / 2, m, k - 1);
    }
  }

  lemma {:induction false} OrCommutes(a: nat, b: nat)
    ensures Or(a, b) == Or(b, a)
    decreases a + b
  {
    if a == 0 && b == 0 {
    } else {
      OrCommutes(a / 2, b / 2);
    }
  }

  lemma {:induction false} AndLowBits(x: nat, w: nat)
    ensures And(x, Pow2(w) - 1) == x % Pow2(w)
    decreases w
  {
    if w == 0 {
      AndZero(x);
    } else {
      AndLowBits(x / 2, w - 1);
      HalfOfMod(x, w);
      var m := Pow2(w) - 1;
      assert m % 2 == 1 && m / 2 == Pow2(w - 1) - 1;
    }
  }

  lemma {:induction false} AndZero(x: nat)
    ensures And(x, 0) == 0
  {
    if x == 0 {
    } else {
      AndZero(x / 2);
    }
  }

  /** Masking with a run of `w` ones starting at bit `k` keeps that field in place. */
  lemma {:induction false} AndField(x: nat, k: nat, w: nat)
    ensures And(x, Shl(Pow2(w) - 1, k)) == Shl(Shr(x, k) % Pow2(w), k)
    decreases k
  {
    if k == 0 {
      AndLowBits(x, w);
    } else {
      AndField(x / 2, k - 1, w);
    }
  }
}
