/** ISO-TP protocol data units, segmentation and the reassembly state machine. */
module IsoTp {
  import opened Bits
  import opened Wrappers

  datatype FlowStatus = ContinueToSend | Wait | Overflow

  datatype IsotpError =
    | SingleFrameTooLarge
    | UnexpectedConsecutiveFrame
    | SequenceNumberMismatch(expected: byte, actual: byte)

  datatype Pdu =
    | SingleFrame(payload: seq<byte>)
    | FirstFrame(totalLen: nat, payload: seq<byte>)
    | ConsecutiveFrame(sequenceNumber: byte, payload: seq<byte>)
    | FlowControl(status: FlowStatus, blockSize: byte, separationTimeMs: byte)

  function SaturatingSub(a: nat, b: nat): nat {
    if a < b then 0 else a - b
  }

  function Min(a: nat, b: nat): nat {
    if a < b then a else b
  }

  // ---- segmentation ----

  /** Bytes carried by a first frame and `i` full consecutive frames of capacity `c`. */
  function End(c: nat, i: nat): nat
    requires c >= 2
  {
    if i == 0 then c - 2 else End(c, i - 1) + (c - 1)
  }

  /** The least number of consecutive frames that carries `len` bytes with the first frame. */
  function ConsecutiveCount(len: nat, c: nat): nat
    requires 2 <= c <= len
  {
    CountFrom(len, c, 0)
  }

  function CountFrom(len: nat, c: nat, i: nat): nat
    requires c >= 2
    decreases len - End(c, i)
  {
    if End(c, i) >= len then i else CountFrom(len, c, i + 1)
  }

  function Block(payload: seq<byte>, c: nat, i: nat): seq<byte>
    requires c >= 2 && i >= 1
  {
    payload[Min(End(c, i - 1), |payload|)..Min(End(c, i), |payload|)]
  }

  /** The `i`-th unit of a multi-frame transfer; unit 0 is the first frame. */
  function MultiFrameUnit(payload: seq<byte>, c: nat, i: nat): Pdu
    requires 2 <= c <= |payload|
  {
    if i == 0 then FirstFrame(|payload|, payload[..c - 2])
    else ConsecutiveFrame(i % 16, Block(payload, c, i))
  }

  function Segmentation(payload: seq<byte>, c: nat): seq<Pdu>
    requires c >= 2 || payload == []
  {
    if |payload| < c || payload == [] then [SingleFrame(payload)]
    else Units(payload, c, 1 + ConsecutiveCount(|payload|, c))
  }

  /** The first `k` units of a multi-frame transfer. */
  function Units(payload: seq<byte>, c: nat, k: nat): (pdus: seq<Pdu>)
    requires 2 <= c <= |payload|
    ensures |pdus| == k
  {
    if k == 0 then [] else Units(payload, c, k - 1) + [MultiFrameUnit(payload, c, k - 1)]
  }

  lemma {:induction false} UnitsIndex(payload: seq<byte>, c: nat, k: nat, i: nat)
    requires 2 <= c <= |payload| && i < k
    ensures Units(payload, c, k)[i] == MultiFrameUnit(payload, c, i)
    ensures Units(payload, c, k)[..i] == Units(payload, c, i)
  {
    if i == k - 1 {
    } else {
      UnitsIndex(payload, c, k - 1, i);
      assert Units(payload, c, k)[..i] == Units(payload, c, k - 1)[..i];
    }
  }

  lemma {:induction false} EndIsLinear(c: nat, i: nat)
    requires c >= 2
    ensures End(c, i) == (c - 2) + i * (c - 1)
  {
    if i == 0 {
    } else {
      EndIsLinear(c, i - 1);
      assert i * (c - 1) == (i - 1) * (c - 1) + (c - 1);
    }
  }

  lemma {:induction false} EndMonotone(c: nat, i: nat, j: nat)
    requires c >= 2 && i <= j
    ensures End(c, i) + (j - i) <= End(c, j)
    decreases j
  {
    if i < j {
      EndMonotone(c, i, j - 1);
    }
  }

  lemma {:induction false} CountFromIsLeast(len: nat, c: nat, i: nat)
    requires c >= 2 && End(c, i) < len
    ensures CountFrom(len, c, i) > i
    ensures End(c, CountFrom(len, c, i) - 1) < len <= End(c, CountFrom(len, c, i))
    decreases len - End(c, i)
  {
    if End(c, i + 1) < len {
      CountFromIsLeast(len, c, i + 1);
    }
  }

  lemma CountIsLeast(len: nat, c: nat)
    requires 2 <= c <= len
    ensures ConsecutiveCount(len, c) >= 1
    ensures End(c, ConsecutiveCount(len, c) - 1) < len <= End(c, ConsecutiveCount(len, c))
  {
    CountFromIsLeast(len, c, 0);
  }

  /** The count is ceil((len - (c - 2)) / (c - 1)). */
  lemma CountIsCeiling(len: nat, c: nat)
    requires 2 <= c <= len
    ensures ConsecutiveCount(len, c) == ((len - (c - 2)) + (c - 1) - 1) / (c - 1)
  {
    var n, d := ConsecutiveCount(len, c), c - 1;
    CountIsLeast(len, c);
    EndIsLinear(c, n);
    EndIsLinear(c, n - 1);
    assert (n - 1) * d == n * d - d;
    DivModUnique(len, d, n, len - n * d);
    assert (len - (c - 2)) + (c - 1) - 1 == len;
  }

  lemma CountUnique(len: nat, c: nat, n: nat)
    requires 2 <= c <= len && n >= 1
    requires End(c, n - 1) < len <= End(c, n)
    ensures n == ConsecutiveCount(len, c)
  {
    CountIsLeast(len, c);
    var m := ConsecutiveCount(len, c);
    if n < m {
      EndMonotone(c, n, m - 1);
    } else if m < n {
      EndMonotone(c, m, n - 1);
    }
  }

  /** `(seq + 1) & 0x0f`, the sequence numbers of section 9.6.4 of ISO 15765-2. */
  function NextSequence(sequence: byte): (r: byte)
    ensures r == (sequence + 1) % 16
  {
    AndLowNibble(sequence + 1);
    And(sequence + 1, 0x0f)
  }

  lemma NextIsModular(k: nat)
    ensures (k % 16 + 1) % 16 == (k + 1) % 16
  {
  }

  lemma AndLowNibble(x: nat)
    ensures And(x, 0x0f) == x % 16
  {
    AndLowBits(x, 4);
    assert Pow2(4) == 16;
  }

  /** Splits a payload for a frame of the given capacity. */
  method Segment(payload: seq<byte>, capacity: nat) returns (r: Result<seq<Pdu>, IsotpError>)
    requires capacity >= 2 || payload == []
    ensures r == Success(Segmentation(payload, capacity))
  {
    if |payload| <= SaturatingSub(capacity, 1) {
      return Success([SingleFrame(payload)]);
    }
    var firstCapacity := SaturatingSub(capacity, 2);
    var consecutiveCapacity := SaturatingSub(capacity, 1);
    var firstEnd := Min(|payload|, firstCapacity);
    var pdus := [FirstFrame(|payload|, payload[..firstEnd])];
    var offset := firstEnd;
    var sequence: byte := 1;
    while offset < |payload|
      invariant |pdus| >= 1
      invariant offset == Min(End(capacity, |pdus| - 1), |payload|)
      invariant |pdus| >= 2 ==> End(capacity, |pdus| - 2) < |payload|
      invariant sequence == |pdus| % 16
      invariant pdus == Units(payload, capacity, |pdus|)
      decreases |payload| - offset
    {
      var end := Min(offset + consecutiveCapacity, |payload|);
      assert ConsecutiveFrame(sequence, payload[offset..end]) == MultiFrameUnit(payload, capacity, |pdus|);
      pdus := pdus + [ConsecutiveFrame(sequence, payload[offset..end])];
      offset := end;
      NextIsModular(|pdus| - 1);
      sequence := NextSequence(sequence);
    }
    CountUnique(|payload|, capacity, |pdus| - 1);
    r := Success(pdus);
  }

  /** The offset after `k` turns of the segmentation loop, for any capacity. */
  function OffsetAfter(len: nat, capacity: nat, k: nat): nat {
    if k == 0 then Min(len, SaturatingSub(capacity, 2))
    else Min(OffsetAfter(len, capacity, k - 1) + SaturatingSub(capacity, 1), len)
  }

  ghost predicate LoopEnds(len: nat, capacity: nat) {
    exists k :: OffsetAfter(len, capacity, k) >= len
  }

  lemma {:induction false} OffsetStuck(len: nat, capacity: nat, k: nat)
    requires capacity < 2
    ensures OffsetAfter(len, capacity, k) == 0
  {
    if k == 0 {
    } else {
      OffsetStuck(len, capacity, k - 1);
    }
  }

  lemma {:induction false} OffsetAdvances(len: nat, capacity: nat, k: nat)
    requires capacity >= 2
    ensures OffsetAfter(len, capacity, k) >= Min(k, len)
  {
    if k == 0 {
    } else {
      OffsetAdvances(len, capacity, k - 1);
    }
  }

  /** The loop ends exactly for the capacities that `Segment` requires. */
  lemma SegmentTerminatesIff(payload: seq<byte>, capacity: nat)
    ensures LoopEnds(|payload|, capacity) <==> capacity >= 2 || payload == []
  {
    if capacity >= 2 || payload == [] {
      if capacity >= 2 {
        OffsetAdvances(|payload|, capacity, |payload|);
      }
      assert OffsetAfter(|payload|, capacity, |payload|) >= |payload|;
    } else {
      forall k: nat
        ensures OffsetAfter(|payload|, capacity, k) == 0
      {
        OffsetStuck(|payload|, capacity, k);
      }
    }
  }

  /** The payload bytes of first and consecutive frames, in order. */
  function Bytes(pdus: seq<Pdu>): seq<byte> {
    if pdus == [] then []
    else Bytes(pdus[..|pdus| - 1]) + PayloadOf(pdus[|pdus| - 1])
  }

  function PayloadOf(pdu: Pdu): seq<byte> {
    if pdu.FlowControl? then [] else pdu.payload
  }

  lemma BytesOfOne(pdu: Pdu)
    ensures Bytes([pdu]) == PayloadOf(pdu)
  {
    assert Bytes([pdu][..0]) == [];
  }

  lemma BytesSnoc(h: seq<Pdu>, pdu: Pdu)
    ensures Bytes(h + [pdu]) == Bytes(h) + PayloadOf(pdu)
    ensures (h + [pdu])[..|h|] == h
  {
  }

  lemma UnitsGrow(payload: seq<byte>, c: nat, i: nat)
    requires 2 <= c <= |payload| && i >= 1
    ensures Bytes(Units(payload, c, i + 1)) == Bytes(Units(payload, c, i)) + Block(payload, c, i)
  {
    BytesSnoc(Units(payload, c, i), MultiFrameUnit(payload, c, i));
  }

  lemma FirstUnitBytes(payload: seq<byte>, c: nat)
    requires 2 <= c <= |payload|
    ensures Bytes(Units(payload, c, 1)) == payload[..c - 2]
  {
    assert Units(payload, c, 1) == [MultiFrameUnit(payload, c, 0)];
    BytesOfOne(MultiFrameUnit(payload, c, 0));
  }

  /** The first `i` consecutive frames carry the payload up to `End(c, i)`. */
  lemma {:induction false} UnitBytes(payload: seq<byte>, c: nat, i: nat)
    requires 2 <= c <= |payload|
    ensures Bytes(Units(payload, c, i + 1)) == payload[..Min(End(c, i), |payload|)]
    decreases i
  {
    if i == 0 {
      FirstUnitBytes(payload, c);
    } else {
      var j := i - 1;
      UnitBytes(payload, c, j);
      UnitsGrow(payload, c, i);
      BlockFollows(payload, c, i);
    }
  }

  lemma BlockFollows(payload: seq<byte>, c: nat, i: nat)
    requires c >= 2 && i >= 1
    ensures payload[..Min(End(c, i - 1), |payload|)] + Block(payload, c, i)
         == payload[..Min(End(c, i), |payload|)]
  {
  }

  lemma BlockLength(payload: seq<byte>, c: nat, i: nat)
    requires 2 <= c <= |payload| && 1 <= i <= ConsecutiveCount(|payload|, c)
    ensures End(c, i - 1) < |payload|
    ensures i < ConsecutiveCount(|payload|, c) ==> End(c, i) < |payload| && |Block(payload, c, i)| == c - 1
    ensures 1 <= |Block(payload, c, i)| <= c - 1
  {
    var n := ConsecutiveCount(|payload|, c);
    CountIsLeast(|payload|, c);
    EndMonotone(c, i - 1, n - 1);
    if i < n {
      EndMonotone(c, i, n - 1);
    }
  }

  /** Every consecutive frame but the last is full, the last is not empty, and the
      `i`-th carries the sequence number `i` mod 16. */
  lemma UnitShape(payload: seq<byte>, c: nat, i: nat)
    requires 2 <= c <= |payload| && 1 <= i <= ConsecutiveCount(|payload|, c)
    ensures |Segmentation(payload, c)| == 1 + ConsecutiveCount(|payload|, c)
    ensures var pdu := Segmentation(payload, c)[i];
            && pdu.ConsecutiveFrame?
            && pdu.sequenceNumber == i % 16
            && 1 <= |pdu.payload| <= c - 1
            && (i < ConsecutiveCount(|payload|, c) ==> |pdu.payload| == c - 1)
  {
    UnitsIndex(payload, c, 1 + ConsecutiveCount(|payload|, c), i);
    BlockLength(payload, c, i);
  }

  /** A multi-frame segmentation starts with a first frame that announces the length,
      goes on with the least number of consecutive frames, and carries the payload. */
  lemma SegmentationShape(payload: seq<byte>, c: nat)
    requires 2 <= c <= |payload|
    ensures var pdus := Segmentation(payload, c);
            && |pdus| >= 2
            && pdus[0] == FirstFrame(|payload|, payload[..c - 2])
            && End(c, |pdus| - 2) < |payload| <= End(c, |pdus| - 1)
            && Bytes(pdus) == payload
  {
    var n := ConsecutiveCount(|payload|, c);
    CountIsLeast(|payload|, c);
    UnitBytes(payload, c, n);
    UnitsIndex(payload, c, n + 1, 0);
  }

  // ---- reassembly ----

  datatype State = State(total: Option<nat>, nextSeq: byte, buffer: seq<byte>)

  type Outcome = Result<Option<seq<byte>>, IsotpError>

  /** `take_if_complete`: hands out the first `total` bytes and keeps the rest as the buffer. */
  function TakeIfComplete(s: State): (State, Option<seq<byte>>)
    requires s.total.Some?
  {
    var total := s.total.value;
    if |s.buffer| < total then (s, None)
    else (s.(total := None, buffer := s.buffer[total..]), Some(s.buffer[..total]))
  }

  /** One `ingest` call: the state it leaves and what it returns. */
  function Step(s: State, pdu: Pdu): (State, Outcome) {
    match pdu
    case SingleFrame(payload) => (s, Success(Some(payload)))
    case FirstFrame(total, payload) =>
      var (s', out) := TakeIfComplete(State(Some(total), 1, payload));
      (s', Success(out))
    case ConsecutiveFrame(sequence, payload) =>
      if s.total.None? then (s, Failure(UnexpectedConsecutiveFrame))
      else if sequence != s.nextSeq then (s, Failure(SequenceNumberMismatch(s.nextSeq, sequence)))
      else
        var (s', out) := TakeIfComplete(s.(nextSeq := (s.nextSeq + 1) % 16, buffer := s.buffer + payload));
        (s', Success(out))
    case FlowControl(_, _, _) => (s, Success(None))
  }

  /** A first frame and the consecutive frames accepted after it, numbered 1, 2, ... mod 16. */
  predicate IsTransfer(h: seq<Pdu>) {
    && h != []
    && h[0].FirstFrame?
    && forall k | 1 <= k < |h| :: h[k].ConsecutiveFrame? && h[k].sequenceNumber == k % 16
  }

  /** The state that transfer `h` has built up, before it is complete. */
  predicate Represents(s: State, h: seq<Pdu>) {
    && IsTransfer(h)
    && s == State(Some(h[0].totalLen), |h| % 16, Bytes(h))
    && |Bytes(h)| < h[0].totalLen
  }

  /** `h` is complete, and was not before its last frame. */
  predicate JustCompleted(h: seq<Pdu>) {
    && IsTransfer(h)
    && |Bytes(h)| >= h[0].totalLen
    && (|h| > 1 ==> |Bytes(h[..|h| - 1])| < h[0].totalLen)
  }

  lemma TransferSnoc(h: seq<Pdu>, pdu: Pdu)
    requires IsTransfer(h)
    requires pdu.ConsecutiveFrame? && pdu.sequenceNumber == |h| % 16
    ensures IsTransfer(h + [pdu])
  {
    var g := h + [pdu];
    forall k | 1 <= k < |g|
      ensures g[k].ConsecutiveFrame? && g[k].sequenceNumber == k % 16
    {
      if k < |h| {
        assert g[k] == h[k];
      }
    }
  }

  lemma BeforeSnoc(h: seq<Pdu>, pdu: Pdu)
    requires h != [] && !pdu.FlowControl?
    ensures (h + [pdu])[0] == h[0] && (h + [pdu])[..|h|] == h
    ensures Bytes(h + [pdu]) == Bytes(h) + pdu.payload
  {
    BytesSnoc(h, pdu);
  }

  /** What is handed out once the frames `h` have been taken, and the frames of the transfer
      that is then in progress. */
  ghost predicate HandsOut(h: seq<Pdu>, out: Option<seq<byte>>, history: seq<Pdu>) {
    && IsTransfer(h)
    && if |Bytes(h)| < h[0].totalLen then out.None? && history == h
       else JustCompleted(h) && out == Some(Bytes(h)[..h[0].totalLen]) && history == []
  }

  class Reassembler {
    var totalLen: Option<nat>
    var nextSeq: byte
    var buffer: seq<byte>
    // The frames of the transfer in progress; [] when there is none.
    ghost var history: seq<Pdu>

    function AsState(): State
      reads this
    {
      State(totalLen, nextSeq, buffer)
    }

    ghost predicate Valid()
      reads this
    {
      && nextSeq <= 15
      && (totalLen.None? <==> history == [])
      && (history != [] ==> Represents(AsState(), history))
    }

    constructor ()
      ensures Valid() && AsState() == State(None, 0, [])
    {
      totalLen, nextSeq, buffer, history := None, 0, [], [];
    }

    /** Ingests one unit. A consecutive frame is rejected exactly when no transfer is in
        progress or its number is not the next one of the transfer, and leaves everything as
        it was. A first frame starts a transfer and a consecutive frame that is not rejected
        extends it; when it has the declared number of bytes they are handed out. */
    method Ingest(pdu: Pdu) returns (r: Outcome)
      requires Valid()
      modifies this
      ensures Valid()
      ensures (AsState(), r) == Step(old(AsState()), pdu)
      ensures r.Failure? ==> AsState() == old(AsState()) && history == old(history)
      ensures pdu.SingleFrame? || pdu.FlowControl? ==> AsState() == old(AsState()) && history == old(history)
      ensures r.Failure? <==>
                pdu.ConsecutiveFrame? && (old(history) == [] || pdu.sequenceNumber != |old(history)| % 16)
      ensures r.Failure? ==>
                r.error == if old(history) == [] then UnexpectedConsecutiveFrame
                           else SequenceNumberMismatch(|old(history)| % 16, pdu.sequenceNumber)
      ensures pdu.SingleFrame? ==> r == Success(Some(pdu.payload))
      ensures pdu.FlowControl? ==> r == Success(None)
      ensures pdu.FirstFrame? ==> r.Success? && HandsOut([pdu], r.value, history)
      ensures pdu.ConsecutiveFrame? && r.Success? ==> HandsOut(old(history) + [pdu], r.value, history)
    {
      match pdu
      case SingleFrame(payload) =>
        r := Success(Some(payload));
      case FirstFrame(_, _) =>
        var out := Start(pdu);
        r := Success(out);
      case ConsecutiveFrame(sequence, _) =>
        if totalLen.None? {
          return Failure(UnexpectedConsecutiveFrame);
        }
        if sequence != nextSeq {
          return Failure(SequenceNumberMismatch(nextSeq, sequence));
        }
        var out := Extend(pdu);
        r := Success(out);
      case FlowControl(_, _, _) =>
        r := Success(None);
    }

    method Start(pdu: Pdu) returns (out: Option<seq<byte>>)
      requires pdu.FirstFrame?
      modifies this
      ensures Valid() && (AsState(), Success(out)) == Step(old(AsState()), pdu)
      ensures HandsOut([pdu], out, history)
    {
      totalLen := Some(pdu.totalLen);
      nextSeq := 1;
      buffer := [];
      buffer := buffer + pdu.payload;
      assert buffer == pdu.payload;
      history := [pdu];
      BytesOfOne(pdu);
      out := Take();
    }

    method Extend(pdu: Pdu) returns (out: Option<seq<byte>>)
      requires Valid() && history != [] && pdu.ConsecutiveFrame? && pdu.sequenceNumber == nextSeq
      modifies this
      ensures Valid() && (AsState(), Success(out)) == Step(old(AsState()), pdu)
      ensures HandsOut(old(history) + [pdu], out, history)
    {
      buffer := buffer + pdu.payload;
      NextIsModular(|history|);
      nextSeq := NextSequence(nextSeq);
      TransferSnoc(history, pdu);
      BeforeSnoc(history, pdu);
      history := history + [pdu];
      out := Take();
    }

    method Take() returns (r: Option<seq<byte>>)
      requires nextSeq <= 15
      requires totalLen.Some? && IsTransfer(history)
      requires AsState() == State(Some(history[0].totalLen), |history| % 16, Bytes(history))
      modifies this
      ensures Valid()
      ensures (AsState(), r) == TakeIfComplete(old(AsState()))
      ensures r.Some? ==> history == [] && buffer == old(buffer)[old(totalLen).value..]
      ensures r.None? ==> history == old(history)
    {
      var total := totalLen.value;
      if |buffer| < total {
        return None;
      }
      // split_off leaves the head in place; the swap then exchanges head and tail
      var tail := buffer[total..];
      buffer := buffer[..total];
      var payload := tail;
      payload, buffer := buffer, payload;
      totalLen := None;
      history := [];
      r := Some(payload);
    }
  }
}
