/** The bytes of a protocol data unit, as laid out in section 9.6 of ISO 15765-2. */
module Wire {
  import opened Bits
  import opened Wrappers
  import opened IsoTp
  import opened Channel

  function StatusCode(status: FlowStatus): byte {
    match status
    case ContinueToSend => 0
    case Wait => 1
    case Overflow => 2
  }

  /** Protocol control information and payload, with the fields cut to their widths. */
  function Encoded(pdu: Pdu): seq<byte> {
    match pdu
    case SingleFrame(payload) => [|payload| % 256] + payload
    case FirstFrame(total, payload) => [0x10 + total / 256 % 16, total % 256] + payload
    case ConsecutiveFrame(sequence, payload) => [0x20 + sequence % 16] + payload
    case FlowControl(status, blockSize, separation) => [0x30 + StatusCode(status), blockSize, separation]
  }

  /** Reads the type from the high nibble of the first byte and the fields of that type.
      The classic layout only: no escape sequences, no reserved lengths. */
  function DecodeWire(bytes: seq<byte>): Option<Pdu> {
    if bytes == [] then None
    else
      var kind, low := bytes[0] / 16, bytes[0] % 16;
      if kind == 0 then
        if 1 + low <= |bytes| then Some(SingleFrame(bytes[1..1 + low])) else None
      else if kind == 1 then
        if 2 <= |bytes| then Some(FirstFrame(low * 256 + bytes[1], bytes[2..])) else None
      else if kind == 2 then Some(ConsecutiveFrame(low, bytes[1..]))
      else if kind == 3 && 3 <= |bytes| then
        match low
        case 0 => Some(FlowControl(ContinueToSend, bytes[1], bytes[2]))
        case 1 => Some(FlowControl(Wait, bytes[1], bytes[2]))
        case 2 => Some(FlowControl(Overflow, bytes[1], bytes[2]))
        case _ => None
      else None
  }

  /** `kind | x` puts a nibble below the type. */
  function Typed(kind: nat, x: nat): (b: byte)
    requires kind <= 3 && x < 16
    ensures b == kind * 16 + x
  {
    assert Pow2(4) == 16;
    ShlIsTimes(kind, 4);
    OrShifted(x, kind, 4);
    OrCommutes(kind * 16, x);
    Or(kind * 16, x)
  }

  function LowNibble(x: nat): (b: byte)
    ensures b == x % 16
  {
    AndLowNibble(x);
    And(x, 0x0f)
  }

  lemma LowByte(x: nat)
    ensures And(x, 0xff) == x % 256 && Shr(x, 8) == x / 256
  {
    assert Pow2(8) == 256;
    AndLowBits(x, 8);
    ShrIsDiv(x, 8);
  }

  /** Encodes one unit for the given frame size. Only single frames are checked. */
  method Encode(pdu: Pdu, frameSize: nat) returns (r: Result<seq<byte>, IsotpError>)
    ensures r == if pdu.SingleFrame? && |pdu.payload| > SaturatingSub(frameSize, 1)
                 then Failure(SingleFrameTooLarge) else Success(Encoded(pdu))
  {
    var out: seq<byte> := [];
    match pdu
    case SingleFrame(payload) =>
      if |payload| > SaturatingSub(frameSize, 1) {
        return Failure(SingleFrameTooLarge);
      }
      out := out + [|payload| % 256];
      out := out + payload;
      assert out == Encoded(pdu);
      r := Success(out);
    case FirstFrame(total, payload) =>
      LowByte(total);
      out := out + [Typed(1, LowNibble(Shr(total, 8)))];
      out := out + [And(total, 0xff)];
      out := out + payload;
      assert out == Encoded(pdu);
      r := Success(out);
    case ConsecutiveFrame(sequence, payload) =>
      out := out + [Typed(2, LowNibble(sequence))];
      out := out + payload;
      assert out == Encoded(pdu);
      r := Success(out);
    case FlowControl(status, blockSize, separation) =>
      var nibble := match status
                    case ContinueToSend => 0x00
                    case Wait => 0x01
                    case Overflow => 0x02;
      out := [Typed(3, nibble), blockSize, separation];
      assert out == Encoded(pdu);
      r := Success(out);
  }

  /** The fields fit their place on the wire. */
  predicate FieldsFit(pdu: Pdu) {
    match pdu
    case SingleFrame(payload) => |payload| <= 15
    case FirstFrame(total, _) => total <= 4095
    case ConsecutiveFrame(sequence, _) => sequence <= 15
    case FlowControl(_, _, _) => true
  }

  lemma SingleSurvivesIff(payload: seq<byte>)
    ensures DecodeWire(Encoded(SingleFrame(payload))) == Some(SingleFrame(payload)) <==> |payload| <= 15
  {
    if |payload| <= 15 {
      assert Encoded(SingleFrame(payload))[1..1 + |payload|] == payload;
    }
  }

  lemma FirstSurvivesIff(total: nat, payload: seq<byte>)
    ensures DecodeWire(Encoded(FirstFrame(total, payload))) == Some(FirstFrame(total, payload)) <==> total <= 4095
  {
    var b := Encoded(FirstFrame(total, payload));
    assert b[0] / 16 == 1 && b[0] % 16 == total / 256 % 16;
    assert b[2..] == payload;
    if total <= 4095 {
      assert total / 256 % 16 == total / 256;
    }
  }

  lemma ConsecutiveSurvivesIff(sequence: byte, payload: seq<byte>)
    ensures DecodeWire(Encoded(ConsecutiveFrame(sequence, payload))) == Some(ConsecutiveFrame(sequence, payload))
       <==> sequence <= 15
  {
    var b := Encoded(ConsecutiveFrame(sequence, payload));
    assert b[0] / 16 == 2 && b[0] % 16 == sequence % 16;
    assert b[1..] == payload;
  }

  /** Decoding undoes encoding for exactly the units whose fields fit. */
  lemma DecodeEncodedIff(pdu: Pdu)
    ensures DecodeWire(Encoded(pdu)) == Some(pdu) <==> FieldsFit(pdu)
  {
    match pdu
    case SingleFrame(payload) => SingleSurvivesIff(payload);
    case FirstFrame(total, payload) => FirstSurvivesIff(total, payload);
    case ConsecutiveFrame(sequence, payload) => ConsecutiveSurvivesIff(sequence, payload);
    case FlowControl(_, _, _) =>
  }

  /** Fields that do not fit are cut: first frames announce their length modulo 4096, and the
      first byte of a single frame is its length modulo 256, whatever type that makes it. */
  lemma CutFields(total: nat, sequence: byte, payload: seq<byte>)
    ensures DecodeWire(Encoded(FirstFrame(total, payload))) == Some(FirstFrame(total % 4096, payload))
    ensures DecodeWire(Encoded(ConsecutiveFrame(sequence, payload))) == Some(ConsecutiveFrame(sequence % 16, payload))
    ensures Encoded(SingleFrame(payload)) == [|payload| % 256] + payload
  {
    assert Encoded(FirstFrame(total, payload))[2..] == payload;
    assert Encoded(ConsecutiveFrame(sequence, payload))[1..] == payload;
    CutLength(total);
    assert (0x20 + sequence % 16) / 16 == 2 && (0x20 + sequence % 16) % 16 == sequence % 16;
  }

  lemma CutLength(total: nat)
    ensures (0x10 + total / 256 % 16) / 16 == 1
    ensures (0x10 + total / 256 % 16) % 16 * 256 + total % 256 == total % 4096
  {
    DivModProduct(total, 256, 16);
  }

  /** The bytes of flow control, by their values. */
  lemma FlowControlBytes(blockSize: byte, separation: byte)
    ensures Encoded(FlowControl(ContinueToSend, blockSize, separation)) == [0x30, blockSize, separation]
    ensures Encoded(FlowControl(Wait, blockSize, separation)) == [0x31, blockSize, separation]
    ensures Encoded(FlowControl(Overflow, blockSize, separation)) == [0x32, blockSize, separation]
  {
  }

  // ---- whole payloads over the wire ----

  /** The payload's length fits the length field of the unit that announces it. */
  predicate LengthFits(len: nat, c: nat) {
    if len < c then len <= 15 else len <= 4095
  }

  /** What a receiver makes of the encoded units; frames it cannot read are dropped. */
  function Received(pdus: seq<Pdu>): seq<Pdu> {
    if pdus == [] then []
    else
      var front, last := Received(pdus[..|pdus| - 1]), DecodeWire(Encoded(pdus[|pdus| - 1]));
      if last.Some? then front + [last.value] else front
  }

  lemma {:induction false} ReceivedAll(pdus: seq<Pdu>)
    requires forall j | 0 <= j < |pdus| :: FieldsFit(pdus[j])
    ensures Received(pdus) == pdus
  {
    if pdus != [] {
      var front, last := pdus[..|pdus| - 1], pdus[|pdus| - 1];
      assert FieldsFit(last);
      ReceivedAll(front);
      DecodeEncodedIff(last);
      assert pdus == front + [last];
    }
  }

  /** Every unit of a segmentation encodes, and fits the capacity it was cut for. */
  lemma SegmentEncodesWithin(payload: seq<byte>, c: nat, i: nat)
    requires c >= 2 && i < |Segmentation(payload, c)|
    ensures var pdu := Segmentation(payload, c)[i];
            && |Encoded(pdu)| <= c
            && (pdu.SingleFrame? ==> |pdu.payload| <= SaturatingSub(c, 1))
  {
    if |payload| >= c {
      SegmentationShape(payload, c);
      if i > 0 {
        UnitShape(payload, c, i);
      }
    }
  }

  /** All units survive the wire exactly when the announced length fits its field. */
  lemma SegmentSurvivesIff(payload: seq<byte>, c: nat)
    requires c >= 2
    ensures (forall i | 0 <= i < |Segmentation(payload, c)| :: FieldsFit(Segmentation(payload, c)[i]))
       <==> LengthFits(|payload|, c)
  {
    if |payload| >= c {
      SegmentationShape(payload, c);
      forall i | 0 < i < |Segmentation(payload, c)|
        ensures FieldsFit(Segmentation(payload, c)[i])
      {
        UnitShape(payload, c, i);
      }
      assert Segmentation(payload, c)[0].totalLen == |payload|;
    } else {
      assert Segmentation(payload, c)[0] == SingleFrame(payload);
    }
  }

  /** No payload of `len` bytes is in the making, and none has been handed out. */
  predicate NeverOf(s: State, out: seq<seq<byte>>, len: nat) {
    && (s.total.Some? ==> s.total.value < len)
    && forall j | 0 <= j < |out| :: |out[j]| < len
  }

  lemma NeverOfStep(s: State, pdu: Pdu, len: nat)
    requires s.total.Some? ==> s.total.value < len
    requires pdu.FirstFrame? ==> pdu.totalLen < len
    requires pdu.SingleFrame? ==> |pdu.payload| < len
    ensures NeverOf(Step(s, pdu).0, Completed(Step(s, pdu).1), len)
  {
  }

  lemma {:induction false} TruncatedRun(s: State, pdus: seq<Pdu>, len: nat)
    requires s.total.None?
    requires forall j | 0 <= j < |pdus| :: FirstFrameBelow(pdus[j], len)
    ensures NeverOf(Run(s, Received(pdus)), Delivered(s, Received(pdus)), len)
  {
    if pdus != [] {
      var front, pdu := pdus[..|pdus| - 1], pdus[|pdus| - 1];
      TruncatedRun(s, front, len);
      var last := DecodeWire(Encoded(pdu));
      assert FirstFrameBelow(pdu, len);
      if last.Some? {
        RunSnoc(s, Received(front), last.value);
        NeverOfStep(Run(s, Received(front)), last.value, len);
        assert Received(pdus) == Received(front) + [last.value];
      } else {
        assert Received(pdus) == Received(front);
      }
    }
  }

  /** What the unit decodes to cannot announce or carry `len` bytes. */
  predicate FirstFrameBelow(pdu: Pdu, len: nat) {
    var got := DecodeWire(Encoded(pdu));
    && (got.Some? && got.value.FirstFrame? ==> got.value.totalLen < len)
    && (got.Some? && got.value.SingleFrame? ==> |got.value.payload| < len)
  }

  lemma FirstFrameTruncated(total: nat, payload: seq<byte>)
    requires total > 4095
    ensures FirstFrameBelow(FirstFrame(total, payload), total)
  {
  }

  lemma ConsecutiveStays(sequence: byte, payload: seq<byte>, len: nat)
    ensures FirstFrameBelow(ConsecutiveFrame(sequence, payload), len)
  {
    var b := Encoded(ConsecutiveFrame(sequence, payload));
    assert b[0] / 16 == 2;
  }

  lemma SegmentBelow(payload: seq<byte>, c: nat, i: nat)
    requires 2 <= c <= |payload| && |payload| > 4095 && i < |Segmentation(payload, c)|
    ensures FirstFrameBelow(Segmentation(payload, c)[i], |payload|)
  {
    var pdu := Segmentation(payload, c)[i];
    if i == 0 {
      SegmentationShape(payload, c);
      FirstFrameTruncated(|payload|, payload[..c - 2]);
    } else {
      UnitShape(payload, c, i);
      ConsecutiveStays(pdu.sequenceNumber, pdu.payload, |payload|);
    }
  }

  lemma AllShorter(out: seq<seq<byte>>, payload: seq<byte>)
    requires forall j | 0 <= j < |out| :: |out[j]| < |payload|
    ensures out != [payload]
  {
    assert |out| == 1 ==> out[0] != payload;
  }

  /** Single frames too long for their nibble read as another type or a shorter length. */
  lemma SingleFrameLost(s: State, payload: seq<byte>)
    requires s.total.None? && |payload| > 15
    ensures Delivered(s, Received([SingleFrame(payload)])) != [payload]
  {
    var pdu := SingleFrame(payload);
    var got := DecodeWire(Encoded(pdu));
    assert [pdu][..0] == [];
    if got.Some? {
      assert Received([pdu]) == [got.value];
      assert got.value.FirstFrame? || got.value.SingleFrame? ==> |got.value.payload| < |payload|;
      RunSnoc(s, [], got.value);
      IdleStepBelow(s, got.value, |payload|);
      AllShorter(Delivered(s, [got.value]), payload);
    } else {
      assert Received([pdu]) == [];
    }
  }

  lemma IdleStepBelow(s: State, pdu: Pdu, len: nat)
    requires s.total.None?
    requires pdu.FirstFrame? || pdu.SingleFrame? ==> |pdu.payload| < len
    ensures forall j | 0 <= j < |Completed(Step(s, pdu).1)| :: |Completed(Step(s, pdu).1)[j]| < len
  {
  }

  lemma LongTransferLost(s: State, payload: seq<byte>, c: nat)
    requires 2 <= c <= |payload| && |payload| > 4095 && s.total.None?
    ensures Delivered(s, Received(Segmentation(payload, c))) != [payload]
  {
    var pdus := Segmentation(payload, c);
    forall j | 0 <= j < |pdus|
      ensures FirstFrameBelow(pdus[j], |payload|)
    {
      SegmentBelow(payload, c, j);
    }
    TruncatedRun(s, pdus, |payload|);
    AllShorter(Delivered(s, Received(pdus)), payload);
  }

  /** Segment, encode, decode and ingest: an idle receiver gets exactly the payload if and
      only if the length fits its field. */
  lemma WireTransferIff(s: State, payload: seq<byte>, c: nat)
    requires c >= 2 && s.total.None?
    ensures Delivered(s, Received(Segmentation(payload, c))) == [payload] <==> LengthFits(|payload|, c)
  {
    var pdus := Segmentation(payload, c);
    if LengthFits(|payload|, c) {
      assert Received(pdus) == pdus by {
        SegmentSurvivesIff(payload, c);
        ReceivedAll(pdus);
      }
      SegmentDelivers(s, payload, c);
    } else if |payload| < c {
      SingleFrameLost(s, payload);
    } else {
      LongTransferLost(s, payload, c);
    }
  }

  /** Ingesting a segmentation delivers the payload, from any state. */
  lemma SegmentDelivers(s: State, payload: seq<byte>, c: nat)
    requires c >= 2
    ensures Delivered(s, Segmentation(payload, c)) == [payload]
  {
    var pdus := Segmentation(payload, c);
    if |payload| >= c {
      SegmentCompletes(payload, c);
      CompletesExactly(s, pdus, payload);
    } else {
      assert pdus == [SingleFrame(payload)];
      assert pdus[..0] == [];
      assert Delivered(s, pdus) == [] + [payload];
    }
  }

  lemma SegmentIsTransfer(payload: seq<byte>, c: nat)
    requires 2 <= c <= |payload|
    ensures IsTransfer(Segmentation(payload, c)) && Segmentation(payload, c)[0].totalLen == |payload|
  {
    var pdus := Segmentation(payload, c);
    SegmentationShape(payload, c);
    forall k | 1 <= k < |pdus|
      ensures pdus[k].ConsecutiveFrame? && pdus[k].sequenceNumber == k % 16
    {
      UnitShape(payload, c, k);
    }
  }

  lemma SegmentCompletes(payload: seq<byte>, c: nat)
    requires 2 <= c <= |payload|
    ensures JustCompleted(Segmentation(payload, c))
    ensures Bytes(Segmentation(payload, c)) == payload && Segmentation(payload, c)[0].totalLen == |payload|
  {
    var pdus := Segmentation(payload, c);
    SegmentIsTransfer(payload, c);
    SegmentationShape(payload, c);
    assert |Bytes(pdus[..|pdus| - 1])| < |payload| by {
      UnitsIndex(payload, c, |pdus|, |pdus| - 1);
      UnitBytes(payload, c, |pdus| - 2);
    }
    CompletedBy(pdus, |payload|);
  }
}
