/** Raw signal extraction with its bounds guard, and the independence of signals. */
module Signals {
  import opened Bits
  import opened Wrappers
  import opened Core
  import opened SignalBits

  datatype ByteOrder = LittleEndian | BigEndian

  datatype ValueType = Signed | Unsigned

  datatype MultiplexIndicator =
    | Plain
    | Multiplexor
    | MultiplexedSignal(expected: u64)
    | MultiplexorAndMultiplexedSignal(expected: u64)

  datatype Signal = Signal(
    name: text,
    startBit: nat,
    size: nat,
    byteOrder: ByteOrder,
    valueType: ValueType,
    factor: real,
    offset: real,
    unit: text,
    mux: MultiplexIndicator
  )

  datatype DiagnosticError = PayloadTooShort(signal: text, expectedBits: nat, actualBytes: nat)

  /** The `i`-th bit that the extraction loop reads. */
  function ReadBit(signal: Signal, i: nat): nat {
    match signal.byteOrder
    case LittleEndian => signal.startBit + i
    case BigEndian => Walk(signal.startBit, i)
  }

  /** The last bit read, or the start bit when there is none. */
  function MaxBit(signal: Signal): nat {
    ReadBit(signal, if signal.size == 0 then 0 else signal.size - 1)
  }

  method MaxSignalBit(signal: Signal) returns (bit: nat)
    ensures bit == MaxBit(signal)
  {
    var start, length := signal.startBit, signal.size;
    match signal.byteOrder
    case LittleEndian =>
      bit := start + if length == 0 then 0 else length - 1;
    case BigEndian =>
      bit := start;
      var i := 1;
      while i < length
        invariant 1 <= i && (i <= length || i == 1)
        invariant bit == Walk(start, i - 1)
      {
        bit := if bit % 8 == 0 then bit + 15 else bit - 1;
        i := i + 1;
      }
  }

  predicate Fits(signal: Signal, payload: seq<byte>) {
    MaxBit(signal) < 8 * |payload|
  }

  predicate ReadsBeyond(signal: Signal, bytes: nat) {
    exists i | 0 <= i < signal.size :: ReadBit(signal, i) >= 8 * bytes
  }

  lemma ReadBitsBelow(signal: Signal, bytes: nat, i: nat)
    requires i < signal.size && MaxBit(signal) < 8 * bytes
    ensures ReadBit(signal, i) < 8 * bytes
  {
    if signal.byteOrder.BigEndian? {
      WalkClosedForm(signal.startBit, i);
      WalkClosedForm(signal.startBit, signal.size - 1);
      LinInPayload(Walk(signal.startBit, i), bytes);
      LinInPayload(MaxBit(signal), bytes);
    }
  }

  /** The guard looks at one bit only, yet fires exactly when the loop would read past the
      payload; an empty signal is judged by its start bit although nothing is read. */
  lemma GuardIsExact(signal: Signal, payload: seq<byte>)
    ensures !Fits(signal, payload)
       <==> ReadsBeyond(signal, |payload|) || (signal.size == 0 && signal.startBit >= 8 * |payload|)
  {
    if Fits(signal, payload) {
      forall i | 0 <= i < signal.size
        ensures ReadBit(signal, i) < 8 * |payload|
      {
        ReadBitsBelow(signal, |payload|, i);
      }
    } else if signal.size > 0 {
      assert ReadBit(signal, signal.size - 1) >= 8 * |payload|;
    }
  }

  lemma FitsInOrder(signal: Signal, payload: seq<byte>)
    requires Fits(signal, payload) && signal.size >= 1
    ensures match signal.byteOrder
            case LittleEndian => signal.startBit + signal.size <= 8 * |payload|
            case BigEndian => Lin(signal.startBit) + signal.size <= 8 * |payload|
  {
    if signal.byteOrder.BigEndian? {
      WalkClosedForm(signal.startBit, signal.size - 1);
      LinInPayload(MaxBit(signal), |payload|);
    }
  }

  /** The value of a signal that fits, as arithmetic on the payload integer. */
  function RawValue(signal: Signal, payload: seq<byte>): nat
    requires Fits(signal, payload)
  {
    if signal.size == 0 then 0
    else
      FitsInOrder(signal, payload);
      match signal.byteOrder
      case LittleEndian => LittleField(payload, signal.startBit, signal.size)
      case BigEndian => BigField(payload, signal.startBit, signal.size)
  }

  function RawResult(signal: Signal, payload: seq<byte>): Result<nat, DiagnosticError> {
    if Fits(signal, payload) then Success(RawValue(signal, payload))
    else Failure(PayloadTooShort(signal.name, MaxBit(signal) + 1, |payload|))
  }

  method ExtractRaw(payload: seq<byte>, signal: Signal) returns (r: Result<nat, DiagnosticError>)
    requires signal.size <= 64
    ensures r == RawResult(signal, payload)
  {
    var start, length := signal.startBit, signal.size;
    var maxBit := MaxSignalBit(signal);
    if maxBit >= |payload| * 8 {
      return Failure(PayloadTooShort(signal.name, maxBit + 1, |payload|));
    }
    var value;
    if length >= 1 {
      FitsInOrder(signal, payload);
    } else {
      assert LittleField(payload, start, 0) == 0;
      LinInPayload(start, |payload|);
    }
    match signal.byteOrder {
      case LittleEndian => value := ExtractLittleEndian(payload, start, length);
      case BigEndian => value := ExtractBigEndian(payload, start, length);
    }
    r := Success(value);
  }

  // ---- which bits make up the value ----

  /** The payload bit that becomes bit `j` of the value. */
  function BitPosition(signal: Signal, j: nat): nat
    requires j < signal.size
  {
    match signal.byteOrder
    case LittleEndian => signal.startBit + j
    case BigEndian => Walk(signal.startBit, signal.size - 1 - j)
  }

  lemma PositionInPayload(signal: Signal, bytes: nat, j: nat)
    requires j < signal.size && MaxBit(signal) < 8 * bytes
    ensures BitPosition(signal, j) < 8 * bytes
  {
    ReadBitsBelow(signal, bytes, if signal.byteOrder.LittleEndian? then j else signal.size - 1 - j);
  }

  /** Distinct bits of the value come from distinct bits of the payload. */
  lemma PositionsDistinct(signal: Signal, j: nat, k: nat)
    requires j < signal.size && k < signal.size && BitPosition(signal, j) == BitPosition(signal, k)
    ensures j == k
  {
    if signal.byteOrder.BigEndian? {
      WalkClosedForm(signal.startBit, signal.size - 1 - j);
      WalkClosedForm(signal.startBit, signal.size - 1 - k);
    }
  }

  lemma LittleFieldBit(payload: seq<byte>, start: nat, length: nat, j: nat)
    requires j < length && start + length <= 8 * |payload|
    ensures Bit(LittleField(payload, start, length), j) == BitAt(payload, start + j)
  {
    var x := LittleValue(payload);
    BitOfMod(Shr(x, start), j, length);
    BitShifted(x, start, j);
    LittleBit(payload, start + j);
  }

  lemma BigFieldBit(payload: seq<byte>, start: nat, length: nat, j: nat)
    requires j < length && Lin(start) + length <= 8 * |payload|
    ensures Walk(start, length - 1 - j) < 8 * |payload|
    ensures Bit(BigField(payload, start, length), j) == BitAt(payload, Walk(start, length - 1 - j))
  {
    var x, e, bit := BigValue(payload), 8 * |payload| - Lin(start) - length, Walk(start, length - 1 - j);
    WalkClosedForm(start, length - 1 - j);
    LinInPayload(bit, |payload|);
    BigBit(payload, bit);
    BitOfMod(Shr(x, e), j, length);
    BitShifted(x, e, j);
  }

  lemma RawBit(signal: Signal, payload: seq<byte>, j: nat)
    requires Fits(signal, payload) && j < signal.size
    ensures BitPosition(signal, j) < 8 * |payload|
    ensures Bit(RawValue(signal, payload), j) == BitAt(payload, BitPosition(signal, j))
  {
    PositionInPayload(signal, |payload|, j);
    FitsInOrder(signal, payload);
    match signal.byteOrder
    case LittleEndian => LittleFieldBit(payload, signal.startBit, signal.size, j);
    case BigEndian => BigFieldBit(payload, signal.startBit, signal.size, j);
  }

  lemma RawBelow(signal: Signal, payload: seq<byte>)
    requires Fits(signal, payload)
    ensures RawValue(signal, payload) < Pow2(signal.size)
  {
  }

  /** A value depends on the bits at its positions and on nothing else. */
  lemma DependsOnPositions(signal: Signal, p: seq<byte>, q: seq<byte>)
    requires Fits(signal, p) && Fits(signal, q)
    requires forall j | 0 <= j < signal.size ::
               BitPosition(signal, j) < 8 * |p| && BitPosition(signal, j) < 8 * |q|
               ==> BitAt(p, BitPosition(signal, j)) == BitAt(q, BitPosition(signal, j))
    ensures RawValue(signal, p) == RawValue(signal, q)
  {
    forall j | 0 <= j < signal.size
      ensures Bit(RawValue(signal, p), j) == Bit(RawValue(signal, q), j)
    {
      RawBit(signal, p, j);
      RawBit(signal, q, j);
    }
    RawBelow(signal, p);
    RawBelow(signal, q);
    EqualBits(RawValue(signal, p), RawValue(signal, q), signal.size);
  }

  // ---- building a payload from its bits ----

  ghost function Pack(f: nat -> bool, base: nat, k: nat): nat {
    if k == 0 then 0 else Pack(f, base, k - 1) + (if f(base + k - 1) then Pow2(k - 1) else 0)
  }

  lemma {:induction false} PackBit(f: nat -> bool, base: nat, k: nat)
    ensures Pack(f, base, k) < Pow2(k)
    ensures forall r | 0 <= r < k :: Bit(Pack(f, base, k), r) == if f(base + r) then 1 else 0
  {
    if k > 0 {
      PackBit(f, base, k - 1);
      var low, top := Pack(f, base, k - 1), if f(base + k - 1) then 1 else 0;
      var x := Pack(f, base, k);
      ShrIsDiv(x, k - 1);
      DivModUnique(x, Pow2(k - 1), top, low);
      forall r | 0 <= r < k
        ensures Bit(x, r) == if f(base + r) then 1 else 0
      {
        if r < k - 1 {
          BitOfMod(x, r, k - 1);
        }
      }
    }
  }

  ghost function PackByte(f: nat -> bool, base: nat): byte {
    PackBit(f, base, 8);
    assert Pow2(8) == 256;
    Pack(f, base, 8)
  }

  ghost function FromBits(f: nat -> bool, n: nat): (payload: seq<byte>)
    ensures |payload| == n
  {
    seq(n, k requires 0 <= k < n => PackByte(f, 8 * k))
  }

  lemma FromBitsAt(f: nat -> bool, n: nat, bit: nat)
    requires bit < 8 * n
    ensures BitAt(FromBits(f, n), bit) == if f(bit) then 1 else 0
  {
    PackBit(f, 8 * (bit / 8), 8);
    assert bit == 8 * (bit / 8) + bit % 8;
  }

  // ---- independence ----

  /** Bit `b` of the payload is one in some signal's wanted value. */
  ghost predicate Wanted(signals: seq<Signal>, raws: seq<nat>, b: nat)
    requires |raws| == |signals|
  {
    exists i: nat, j: nat | i < |signals| && j < signals[i].size ::
      BitPosition(signals[i], j) == b && Bit(raws[i], j) == 1
  }

  ghost predicate Disjoint(a: Signal, b: Signal) {
    forall j, k | 0 <= j < a.size && 0 <= k < b.size :: BitPosition(a, j) != BitPosition(b, k)
  }

  ghost predicate PairwiseDisjoint(signals: seq<Signal>) {
    forall i, i' | 0 <= i < i' < |signals| :: Disjoint(signals[i], signals[i'])
  }

  predicate InRangeValues(signals: seq<Signal>, raws: seq<nat>) {
    |raws| == |signals| && forall i | 0 <= i < |raws| :: raws[i] < Pow2(signals[i].size)
  }

  predicate AllFit(signals: seq<Signal>, bytes: nat) {
    forall i | 0 <= i < |signals| :: MaxBit(signals[i]) < 8 * bytes
  }

  ghost predicate Carries(payload: seq<byte>, signals: seq<Signal>, raws: seq<nat>)
    requires |raws| == |signals|
  {
    forall i | 0 <= i < |signals| :: RawResult(signals[i], payload) == Success(raws[i])
  }

  ghost predicate Realisable(signals: seq<Signal>, raws: seq<nat>, bytes: nat)
    requires |raws| == |signals|
  {
    exists payload: seq<byte> :: |payload| == bytes && Carries(payload, signals, raws)
  }

  lemma PositionsSeparate(signals: seq<Signal>, i: nat, i': nat, j: nat, k: nat)
    requires PairwiseDisjoint(signals)
    requires i < |signals| && i' < |signals| && i != i'
    requires j < signals[i].size && k < signals[i'].size
    ensures BitPosition(signals[i], j) != BitPosition(signals[i'], k)
  {
    if i < i' {
      assert Disjoint(signals[i], signals[i']);
    } else {
      assert Disjoint(signals[i'], signals[i]);
    }
  }

  lemma WantedBit(signals: seq<Signal>, raws: seq<nat>, i: nat, j: nat)
    requires |raws| == |signals| && PairwiseDisjoint(signals)
    requires i < |signals| && j < signals[i].size
    ensures Wanted(signals, raws, BitPosition(signals[i], j)) <==> Bit(raws[i], j) == 1
  {
    var b := BitPosition(signals[i], j);
    if Wanted(signals, raws, b) {
      var i': nat, j': nat :| i' < |signals| && j' < signals[i'].size
        && BitPosition(signals[i'], j') == b && Bit(raws[i'], j') == 1;
      if i == i' {
        PositionsDistinct(signals[i], j, j');
      } else {
        PositionsSeparate(signals, i, i', j, j');
      }
    }
  }

  lemma DisjointRealisable(signals: seq<Signal>, raws: seq<nat>, bytes: nat)
    requires PairwiseDisjoint(signals) && AllFit(signals, bytes) && InRangeValues(signals, raws)
    ensures Realisable(signals, raws, bytes)
  {
    var f := (b: nat) => Wanted(signals, raws, b);
    var payload := FromBits(f, bytes);
    forall i | 0 <= i < |signals|
      ensures RawResult(signals[i], payload) == Success(raws[i])
    {
      var signal := signals[i];
      forall j | 0 <= j < signal.size
        ensures Bit(RawValue(signal, payload), j) == Bit(raws[i], j)
      {
        RawBit(signal, payload, j);
        FromBitsAt(f, bytes, BitPosition(signal, j));
        WantedBit(signals, raws, i, j);
      }
      RawBelow(signal, payload);
      EqualBits(RawValue(signal, payload), raws[i], signal.size);
    }
    assert Carries(payload, signals, raws);
  }

  /** Values that ask for both a one and a zero in the same payload bit. */
  function Conflict(signals: seq<Signal>, i: nat, j: nat): seq<nat>
    requires i < |signals|
  {
    seq(|signals|, k => if k == i then Pow2(j) else 0)
  }

  lemma OverlapUnrealisable(signals: seq<Signal>, bytes: nat, i: nat, i': nat, j: nat, k: nat)
    requires AllFit(signals, bytes) && i < |signals| && i' < |signals| && i != i'
    requires j < signals[i].size && k < signals[i'].size
    requires BitPosition(signals[i], j) == BitPosition(signals[i'], k)
    ensures InRangeValues(signals, Conflict(signals, i, j))
    ensures !Realisable(signals, Conflict(signals, i, j), bytes)
  {
    var raws := Conflict(signals, i, j);
    Pow2Monotone(j + 1, signals[i].size);
    PowerBit(j);
    forall payload: seq<byte> | |payload| == bytes
      ensures !Carries(payload, signals, raws)
    {
      if Carries(payload, signals, raws) {
        RawBit(signals[i], payload, j);
        RawBit(signals[i'], payload, k);
        assert RawResult(signals[i], payload) == Success(raws[i]);
        assert RawResult(signals[i'], payload) == Success(raws[i']);
        ZeroBit(k);
      }
    }
  }

  /** Signals can take every combination of values at once exactly when no two of them
      share a payload bit. */
  lemma IndependentIff(signals: seq<Signal>, bytes: nat)
    requires AllFit(signals, bytes)
    ensures (forall raws | InRangeValues(signals, raws) :: Realisable(signals, raws, bytes))
       <==> PairwiseDisjoint(signals)
  {
    if PairwiseDisjoint(signals) {
      forall raws | InRangeValues(signals, raws)
        ensures Realisable(signals, raws, bytes)
      {
        DisjointRealisable(signals, raws, bytes);
      }
    } else {
      var i, i' :| 0 <= i < i' < |signals| && !Disjoint(signals[i], signals[i']);
      var j, k :| 0 <= j < signals[i].size && 0 <= k < signals[i'].size
        && BitPosition(signals[i], j) == BitPosition(signals[i'], k);
      OverlapUnrealisable(signals, bytes, i, i', j, k);
    }
  }
}
