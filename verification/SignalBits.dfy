/** A CAN payload as bits and as integers, and the extraction loops of both byte orders. */
module SignalBits {
  import opened Bits

  /** `(payload[bit / 8] >> (bit % 8)) & 1`. */
  function BitAt(payload: seq<byte>, bit: nat): (b: nat)
    requires bit < 8 * |payload|
    ensures b == Bit(payload[bit / 8], bit % 8)
  {
    AndOne(Shr(payload[bit / 8], bit % 8));
    And(Shr(payload[bit / 8], bit % 8), 1)
  }

  lemma AndOne(x: nat)
    ensures And(x, 1) == x % 2
  {
    assert Pow2(1) == 2;
    AndLowBits(x, 1);
  }

  // ---- a payload as one integer ----

  /** The payload as an integer whose first byte is the least significant. */
  function LittleValue(payload: seq<byte>): nat {
    if payload == [] then 0 else payload[0] + 256 * LittleValue(payload[1..])
  }

  /** The payload as an integer whose first byte is the most significant. */
  function BigValue(payload: seq<byte>): nat {
    if payload == [] then 0
    else 256 * BigValue(payload[..|payload| - 1]) + payload[|payload| - 1]
  }

  function Reverse(payload: seq<byte>): (r: seq<byte>)
    ensures |r| == |payload|
    ensures forall k | 0 <= k < |r| :: r[k] == payload[|payload| - 1 - k]
  {
    seq(|payload|, k requires 0 <= k < |payload| => payload[|payload| - 1 - k])
  }

  lemma {:induction false} BigIsReversedLittle(payload: seq<byte>)
    ensures BigValue(payload) == LittleValue(Reverse(payload))
  {
    if payload != [] {
      var front := payload[..|payload| - 1];
      BigIsReversedLittle(front);
      assert Reverse(payload)[1..] == Reverse(front);
    }
  }

  lemma LowBits(low: nat, rest: nat, bit: nat)
    requires low < 256
    ensures bit < 8 ==> Bit(low + 256 * rest, bit) == Bit(low, bit)
    ensures bit >= 8 ==> Bit(low + 256 * rest, bit) == Bit(rest, bit - 8)
  {
    var x := low + 256 * rest;
    assert Pow2(8) == 256;
    DivModUnique(x, 256, rest, low);
    if bit < 8 {
      BitOfMod(x, bit, 8);
    } else {
      ShrIsDiv(x, 8);
      BitShifted(x, 8, bit - 8);
    }
  }

  /** Every bit of the payload is a bit of the little-endian integer. */
  lemma {:induction false} LittleBit(payload: seq<byte>, bit: nat)
    requires bit < 8 * |payload|
    ensures BitAt(payload, bit) == Bit(LittleValue(payload), bit)
  {
    LowBits(payload[0], LittleValue(payload[1..]), bit);
    if bit >= 8 {
      LittleBit(payload[1..], bit - 8);
    }
  }

  // ---- the Motorola walk ----

  /** The position of a bit in reading order: byte by byte, most significant bit first. */
  function Lin(bit: nat): nat {
    8 * (bit / 8) + 7 - bit % 8
  }

  lemma LinInvolution(bit: nat)
    ensures Lin(Lin(bit)) == bit && Lin(bit) / 8 == bit / 8 && Lin(bit) % 8 == 7 - bit % 8
  {
  }

  /** The bit after `bit` in big-endian order. */
  function NextBigEndian(bit: nat): nat {
    if bit % 8 == 0 then bit + 15 else bit - 1
  }

  /** The bit reached from `start` after `k` steps. */
  function Walk(start: nat, k: nat): nat {
    if k == 0 then start else NextBigEndian(Walk(start, k - 1))
  }

  /** The +15/-1 walk is a unit step in reading order. */
  lemma WalkIsUnitStep(bit: nat)
    ensures Lin(NextBigEndian(bit)) == Lin(bit) + 1
  {
  }

  lemma {:induction false} WalkClosedForm(start: nat, k: nat)
    ensures Lin(Walk(start, k)) == Lin(start) + k
    ensures Walk(start, k) == Lin(Lin(start) + k)
  {
    LinInvolution(Walk(start, k));
    if k > 0 {
      WalkClosedForm(start, k - 1);
      WalkIsUnitStep(Walk(start, k - 1));
    }
  }

  lemma LinInPayload(bit: nat, n: nat)
    ensures bit < 8 * n <==> Lin(bit) < 8 * n
  {
  }

  /** Every bit of the payload is a bit of the big-endian integer, counted from its end. */
  lemma BigBit(payload: seq<byte>, bit: nat)
    requires bit < 8 * |payload|
    ensures Lin(bit) < 8 * |payload|
    ensures BitAt(payload, bit) == Bit(BigValue(payload), 8 * |payload| - 1 - Lin(bit))
  {
    var mirrored := 8 * |payload| - 1 - Lin(bit);
    assert mirrored == 8 * (|payload| - 1 - bit / 8) + bit % 8;
    BigIsReversedLittle(payload);
    LittleBit(Reverse(payload), mirrored);
  }

  // ---- the extraction loops ----

  /** `length` bits of the little-endian integer from bit `start` up. */
  function LittleField(payload: seq<byte>, start: nat, length: nat): nat {
    Shr(LittleValue(payload), start) % Pow2(length)
  }

  /** `length` bits of the big-endian integer that start at bit `start` in reading order. */
  function BigField(payload: seq<byte>, start: nat, length: nat): nat
    requires Lin(start) + length <= 8 * |payload|
  {
    Shr(BigValue(payload), 8 * |payload| - Lin(start) - length) % Pow2(length)
  }

  /** The byte orders are mirror images of each other. */
  lemma ByteOrderDuality(payload: seq<byte>, start: nat, length: nat)
    requires Lin(start) + length <= 8 * |payload|
    ensures BigField(payload, start, length)
         == LittleField(Reverse(payload), 8 * |payload| - Lin(start) - length, length)
  {
    BigIsReversedLittle(payload);
  }

  lemma Pow2Of64()
    ensures Pow2(64) == TWO_TO_THE_64
  {
    assert Pow2(8) == 0x100;
    Pow2Add(8, 8);
    Pow2Add(16, 16);
    Pow2Add(32, 32);
  }

  lemma FitsWord(x: nat, k: nat)
    requires k <= 64 && x < Pow2(k)
    ensures x < TWO_TO_THE_64 && x % TWO_TO_THE_64 == x
  {
    Pow2Of64();
    Pow2Monotone(k, 64);
  }

  /** `value | bit << offset` with the bit above all of `value`. */
  lemma OrBitAbove(value: nat, bit: nat, offset: nat)
    requires value < Pow2(offset) && bit <= 1 && offset < 64
    ensures Or(value, Shl64(bit, offset)) == value + Pow2(offset) * bit
  {
    ShlIsTimes(bit, offset);
    FitsWord(Shl(bit, offset), offset + 1);
    OrShifted(value, bit, offset);
  }

  /** `value << 1 | bit`. */
  lemma OrBitBelow(value: nat, bit: nat, k: nat)
    requires value < Pow2(k) && bit <= 1 && k < 64
    ensures Or(Shl64(value, 1), bit) == 2 * value + bit
  {
    assert Shl(value, 1) == 2 * value;
    FitsWord(Shl(value, 1), k + 1);
    assert Pow2(1) == 2;
    OrShifted(bit, value, 1);
    OrCommutes(2 * value, bit);
  }

  lemma NextLittle(payload: seq<byte>, start: nat, offset: nat)
    requires start + offset < 8 * |payload|
    ensures LittleField(payload, start, offset + 1)
         == LittleField(payload, start, offset) + Pow2(offset) * BitAt(payload, start + offset)
  {
    var x := LittleValue(payload);
    NextBit(Shr(x, start), offset);
    BitShifted(x, start, offset);
    LittleBit(payload, start + offset);
  }

  lemma NextBig(payload: seq<byte>, start: nat, k: nat)
    requires Lin(start) + k < 8 * |payload|
    ensures Walk(start, k) < 8 * |payload|
    ensures BigField(payload, start, k + 1) == 2 * BigField(payload, start, k) + BitAt(payload, Walk(start, k))
  {
    var x, e := BigValue(payload), 8 * |payload| - Lin(start) - k;
    WalkClosedForm(start, k);
    LinInPayload(Walk(start, k), |payload|);
    BigBit(payload, Walk(start, k));
    ShrTwice(x, e - 1, 1);
    HalfOfMod(Shr(x, e - 1), k + 1);
  }

  method ExtractLittleEndian(payload: seq<byte>, start: nat, length: nat) returns (value: nat)
    requires length <= 64 && start + length <= 8 * |payload|
    ensures value == LittleField(payload, start, length)
  {
    value := 0;
    for offset := 0 to length
      invariant value == LittleField(payload, start, offset)
    {
      OrBitAbove(value, BitAt(payload, start + offset), offset);
      NextLittle(payload, start, offset);
      value := Or(value, Shl64(BitAt(payload, start + offset), offset));
    }
  }

  method ExtractBigEndian(payload: seq<byte>, start: nat, length: nat) returns (value: nat)
    requires length <= 64 && Lin(start) + length <= 8 * |payload|
    ensures value == BigField(payload, start, length)
  {
    value := 0;
    var bit := start;
    for k := 0 to length
      invariant bit == Walk(start, k)
      invariant value == BigField(payload, start, k)
    {
      NextBig(payload, start, k);
      OrBitBelow(value, BitAt(payload, bit), k);
      value := Or(Shl64(value, 1), BitAt(payload, bit));
      bit := if bit % 8 == 0 then bit + 15 else bit - 1;
    }
  }

  // ---- sign extension ----

  /** `((raw << shift) as i64) >> shift` with an arithmetic right shift. */
  function SignExtend(raw: nat, width: nat): int
    requires 1 <= width <= 64
  {
    AsI64(Shl64(raw, 64 - width)) / Pow2(64 - width)
  }

  lemma MultipleOf(x: int, q: nat)
    requires q > 0
    ensures x * q / q == x && x * q % q == 0
  {
    DivModUnique(x * q, q, x, 0);
  }

  lemma ShiftedResidue(raw: nat, w: nat, d: nat)
    ensures raw * Pow2(d) % Pow2(w + d) == raw % Pow2(w) * Pow2(d)
  {
    SplitAt(raw * Pow2(d), d, w);
    MultipleOf(raw, Pow2(d));
  }

  /** Reading `low * q` as an `i64` and dividing by `q`, when `half * q` is the sign bit. */
  lemma SignedQuotient(low: nat, half: nat, q: nat)
    requires q > 0 && 2 * half * q == TWO_TO_THE_64
    ensures AsI64(low * q) / q == if low < half then low else low - 2 * half
  {
    SignBit(low, half, q);
    MultipleOf(low, q);
    MultipleOf(low - 2 * half, q);
    assert (low - 2 * half) * q == low * q - 2 * half * q;
  }

  lemma SignBit(low: nat, half: nat, q: nat)
    requires q > 0
    ensures low < half <==> low * q < half * q
  {
    if low < half {
      MulAtLeast(half - low, q);
      assert half * q == low * q + (half - low) * q;
    } else {
      assert low * q == half * q + (low - half) * q;
      assert (low - half) * q >= 0;
    }
  }

  /** Sign extension reads the low `width` bits as two's complement. */
  lemma SignExtendIsTwosComplement(raw: nat, width: nat)
    requires 1 <= width <= 64
    ensures var low := raw % Pow2(width);
            SignExtend(raw, width) == if low < Pow2(width - 1) then low else low - Pow2(width)
    ensures 0 <= SignExtend(raw, width) + Pow2(width - 1) < Pow2(width)
    ensures (SignExtend(raw, width) - raw) % Pow2(width) == 0
  {
    var low, d, half := raw % Pow2(width), 64 - width, Pow2(width - 1);
    assert Shl64(raw, d) == low * Pow2(d) && 2 * half * Pow2(d) == TWO_TO_THE_64 by {
      Pow2Of64();
      ShlIsTimes(raw, d);
      ShiftedResidue(raw, width, d);
      Pow2Add(width, d);
    }
    SignedQuotient(low, half, Pow2(d));
    CongruentToResidue(raw, Pow2(width), if low < half then 0 else 1);
  }

  lemma CongruentToResidue(raw: nat, p: nat, k: int)
    requires p > 0
    ensures (raw % p - k * p - raw) % p == 0
  {
    assert raw % p - k * p - raw == (-(raw / p) - k) * p;
    MultipleOf(-(raw / p) - k, p);
  }
}
