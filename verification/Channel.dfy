/** Whole runs of the reassembler over arbitrary streams of protocol data units. */
module Channel {
  import opened Bits
  import opened Wrappers
  import opened IsoTp

  /** The state after ingesting a stream, going on after every error. */
  function Run(s: State, stream: seq<Pdu>): State {
    if stream == [] then s
    else Step(Run(s, stream[..|stream| - 1]), stream[|stream| - 1]).0
  }

  function Completed(o: Outcome): seq<seq<byte>> {
    if o.Success? && o.value.Some? then [o.value.value] else []
  }

  /** The payloads handed out while ingesting a stream, in order. */
  function Delivered(s: State, stream: seq<Pdu>): seq<seq<byte>> {
    if stream == [] then []
    else
      var front := stream[..|stream| - 1];
      Delivered(s, front) + Completed(Step(Run(s, front), stream[|stream| - 1]).1)
  }

  lemma RunSnoc(s: State, stream: seq<Pdu>, pdu: Pdu)
    ensures Run(s, stream + [pdu]) == Step(Run(s, stream), pdu).0
    ensures Delivered(s, stream + [pdu])
         == Delivered(s, stream) + Completed(Step(Run(s, stream), pdu).1)
  {
    assert (stream + [pdu])[..|stream|] == stream;
  }

  lemma {:induction false} RunAppend(s: State, a: seq<Pdu>, b: seq<Pdu>)
    ensures Run(s, a + b) == Run(Run(s, a), b)
    ensures Delivered(s, a + b) == Delivered(s, a) + Delivered(Run(s, a), b)
  {
    if b == [] {
      assert a + b == a;
    } else {
      var front, last := b[..|b| - 1], b[|b| - 1];
      assert a + b == (a + front) + [last];
      RunAppend(s, a, front);
      RunSnoc(s, a + front, last);
    }
  }

  // ---- one step, in terms of the transfer in progress ----

  /** During a transfer exactly the consecutive frames with another number than the next are
      answered by an error, which names both numbers. */
  lemma StepReportsIff(s: State, h: seq<Pdu>, pdu: Pdu)
    requires Represents(s, h)
    ensures Step(s, pdu).1.Failure? <==> pdu.ConsecutiveFrame? && pdu.sequenceNumber != |h| % 16
    ensures Step(s, pdu).1.Failure? ==>
              Step(s, pdu).1.error == SequenceNumberMismatch(|h| % 16, pdu.sequenceNumber)
  {
  }

  lemma StepStarts(s: State, pdu: Pdu)
    requires pdu.FirstFrame?
    ensures Bytes([pdu]) == pdu.payload && IsTransfer([pdu])
    ensures if |pdu.payload| < pdu.totalLen
            then Represents(Step(s, pdu).0, [pdu]) && Completed(Step(s, pdu).1) == []
            else Step(s, pdu).0.total.None? && Completed(Step(s, pdu).1) == [pdu.payload[..pdu.totalLen]]
  {
    BytesOfOne(pdu);
  }

  lemma StepExtends(s: State, h: seq<Pdu>, pdu: Pdu)
    requires Represents(s, h)
    requires pdu.ConsecutiveFrame? && pdu.sequenceNumber == |h| % 16
    requires |Bytes(h)| + |pdu.payload| < h[0].totalLen
    ensures Represents(Step(s, pdu).0, h + [pdu]) && Completed(Step(s, pdu).1) == []
  {
    TransferSnoc(h, pdu);
    BeforeSnoc(h, pdu);
    NextIsModular(|h|);
  }

  lemma StepCompletes(s: State, h: seq<Pdu>, pdu: Pdu)
    requires Represents(s, h)
    requires pdu.ConsecutiveFrame? && pdu.sequenceNumber == |h| % 16
    requires |Bytes(h)| + |pdu.payload| >= h[0].totalLen
    ensures JustCompleted(h + [pdu]) && Bytes(h + [pdu]) == Bytes(h) + pdu.payload
    ensures Step(s, pdu).0.total.None?
    ensures Completed(Step(s, pdu).1) == [Bytes(h + [pdu])[..h[0].totalLen]]
  {
    TransferSnoc(h, pdu);
    BeforeSnoc(h, pdu);
  }

  lemma StepAccepts(s: State, h: seq<Pdu>, pdu: Pdu)
    requires Represents(s, h)
    requires pdu.ConsecutiveFrame? && pdu.sequenceNumber == |h| % 16
    ensures Bytes(h + [pdu]) == Bytes(h) + pdu.payload
    ensures if |Bytes(h + [pdu])| < h[0].totalLen
            then Represents(Step(s, pdu).0, h + [pdu]) && Completed(Step(s, pdu).1) == []
            else && JustCompleted(h + [pdu]) && Step(s, pdu).0.total.None?
                 && Completed(Step(s, pdu).1) == [Bytes(h + [pdu])[..h[0].totalLen]]
  {
    BeforeSnoc(h, pdu);
    if |Bytes(h)| + |pdu.payload| < h[0].totalLen {
      StepExtends(s, h, pdu);
    } else {
      StepCompletes(s, h, pdu);
    }
  }

  // ---- every delivered payload has a history ----

  predicate InRange(indices: seq<nat>, n: nat) {
    forall j | 0 <= j < |indices| :: indices[j] < n
  }

  function Pick(stream: seq<Pdu>, indices: seq<nat>): (h: seq<Pdu>)
    requires InRange(indices, |stream|)
    ensures |h| == |indices|
    ensures forall j | 0 <= j < |h| :: h[j] == stream[indices[j]]
  {
    seq(|indices|, j requires 0 <= j < |indices| => stream[indices[j]])
  }

  /** Where the `j`-th accepted frame stops being the latest one. */
  function SpanEnd(stream: seq<Pdu>, indices: seq<nat>, j: nat): (end: nat)
    requires InRange(indices, |stream|) && j < |indices|
    ensures end <= |stream|
  {
    if j + 1 < |indices| then indices[j + 1] else |stream|
  }

  /** `indices` selects the transfer in progress at the end of `stream`: its latest first
      frame, then each time the first consecutive frame with the number that was due. */
  ghost predicate IsHistory(stream: seq<Pdu>, indices: seq<nat>) {
    && indices != []
    && InRange(indices, |stream|)
    && (forall j, k | 0 <= j < k < |indices| :: indices[j] < indices[k])
    && IsTransfer(Pick(stream, indices))
    && (forall p | indices[0] < p < |stream| :: !stream[p].FirstFrame?)
    && (forall j, p | 0 <= j < |indices| && indices[j] < p < SpanEnd(stream, indices, j) ::
          stream[p].ConsecutiveFrame? ==> stream[p].sequenceNumber != (j + 1) % 16)
  }

  lemma PickLonger(stream: seq<Pdu>, pdu: Pdu, indices: seq<nat>)
    requires InRange(indices, |stream|)
    ensures Pick(stream + [pdu], indices) == Pick(stream, indices)
    ensures Pick(stream + [pdu], indices + [|stream|]) == Pick(stream, indices) + [pdu]
  {
    assert Pick(stream + [pdu], indices) == Pick(stream, indices);
  }

  lemma HistorySkips(stream: seq<Pdu>, pdu: Pdu, indices: seq<nat>)
    requires IsHistory(stream, indices)
    requires !pdu.FirstFrame?
    requires pdu.ConsecutiveFrame? ==> pdu.sequenceNumber != |indices| % 16
    ensures IsHistory(stream + [pdu], indices)
  {
    PickLonger(stream, pdu, indices);
    var longer := stream + [pdu];
    forall j, p | 0 <= j < |indices| && indices[j] < p < SpanEnd(longer, indices, j)
      ensures longer[p].ConsecutiveFrame? ==> longer[p].sequenceNumber != (j + 1) % 16
    {
      assert p == |stream| || p < SpanEnd(stream, indices, j);
    }
  }

  lemma HistoryAccepts(stream: seq<Pdu>, pdu: Pdu, indices: seq<nat>)
    requires IsHistory(stream, indices)
    requires pdu.ConsecutiveFrame? && pdu.sequenceNumber == |indices| % 16
    ensures IsHistory(stream + [pdu], indices + [|stream|])
  {
    PickLonger(stream, pdu, indices);
    var grown, longer := indices + [|stream|], stream + [pdu];
    forall j, p | 0 <= j < |grown| && grown[j] < p < SpanEnd(longer, grown, j)
      ensures longer[p].ConsecutiveFrame? ==> longer[p].sequenceNumber != (j + 1) % 16
    {
      assert p < SpanEnd(stream, indices, j);
    }
  }

  lemma HistoryStarts(stream: seq<Pdu>, pdu: Pdu)
    requires pdu.FirstFrame?
    ensures IsHistory(stream + [pdu], [|stream|])
    ensures Pick(stream + [pdu], [|stream|]) == [pdu]
  {
    assert Pick(stream + [pdu], [|stream|]) == [pdu];
  }

  /** `indices` is the history of the transfer in progress, if there is one. */
  ghost predicate Explains(stream: seq<Pdu>, s: State, indices: seq<nat>) {
    s.total.Some? ==> IsHistory(stream, indices) && Represents(s, Pick(stream, indices))
  }

  lemma ExplainsAccepted(front: seq<Pdu>, before: State, indices: seq<nat>, pdu: Pdu)
    requires before.total.Some? && Explains(front, before, indices)
    requires pdu.ConsecutiveFrame? && pdu.sequenceNumber == before.nextSeq
    ensures Explains(front + [pdu], Step(before, pdu).0, indices + [|front|])
  {
    PickLonger(front, pdu, indices);
    HistoryAccepts(front, pdu, indices);
    StepAccepts(before, Pick(front, indices), pdu);
  }

  lemma ExplainsNext(front: seq<Pdu>, before: State, indices: seq<nat>, pdu: Pdu) returns (indices': seq<nat>)
    requires Explains(front, before, indices)
    ensures Explains(front + [pdu], Step(before, pdu).0, indices')
  {
    if pdu.FirstFrame? {
      HistoryStarts(front, pdu);
      StepStarts(before, pdu);
      indices' := [|front|];
    } else if before.total.Some? && pdu.ConsecutiveFrame? && pdu.sequenceNumber == before.nextSeq {
      ExplainsAccepted(front, before, indices, pdu);
      indices' := indices + [|front|];
    } else {
      if before.total.Some? {
        PickLonger(front, pdu, indices);
        HistorySkips(front, pdu, indices);
      }
      indices' := indices;
    }
  }

  /** The indices of the transfer in progress after an arbitrary stream. */
  lemma {:induction false} HistoryOf(s: State, stream: seq<Pdu>) returns (indices: seq<nat>)
    requires s.total.None?
    ensures Explains(stream, Run(s, stream), indices)
    decreases |stream|
  {
    indices := [];
    if stream != [] {
      var front, pdu := stream[..|stream| - 1], stream[|stream| - 1];
      assert stream == front + [pdu];
      indices := HistoryOf(s, front);
      indices := ExplainsNext(front, Run(s, front), indices, pdu);
    }
  }

  /** Safety over arbitrary streams: a payload completed by a first or consecutive frame is
      the declared number of bytes of the latest first frame and the consecutive frames
      numbered 1, 2, ... mod 16 accepted since, and the transfer ends with that frame. */
  lemma DeliveredHasHistory(s: State, stream: seq<Pdu>, pdu: Pdu, data: seq<byte>)
    requires s.total.None? && !pdu.SingleFrame?
    requires Step(Run(s, stream), pdu).1 == Success(Some(data))
    ensures exists indices ::
              && IsHistory(stream + [pdu], indices)
              && indices[|indices| - 1] == |stream|
              && JustCompleted(Pick(stream + [pdu], indices))
              && data == Bytes(Pick(stream + [pdu], indices))[..(stream + [pdu])[indices[0]].totalLen]
  {
    var before := Run(s, stream);
    var indices := HistoryOf(s, stream);
    if pdu.FirstFrame? {
      HistoryStarts(stream, pdu);
      StepStarts(before, pdu);
      assert [|stream|][0] == |stream|;
    } else {
      HistoryAccepts(stream, pdu, indices);
      PickLonger(stream, pdu, indices);
      StepAccepts(before, Pick(stream, indices), pdu);
      assert IsHistory(stream + [pdu], indices + [|stream|]);
    }
  }

  // ---- a transfer ingested without gaps ----

  lemma PartialFront(h: seq<Pdu>, front: seq<Pdu>, pdu: Pdu)
    requires IsTransfer(h) && |Bytes(h)| < h[0].totalLen
    requires h == front + [pdu] && front != []
    ensures IsTransfer(front) && |Bytes(front)| < front[0].totalLen
    ensures pdu.ConsecutiveFrame? && pdu.sequenceNumber == |front| % 16
    ensures |Bytes(front)| + |pdu.payload| < front[0].totalLen
  {
    assert pdu == h[|front|];
    assert forall k | 0 <= k < |front| :: front[k] == h[k];
    BeforeSnoc(front, pdu);
  }

  lemma RunStarts(s: State, h: seq<Pdu>)
    requires IsTransfer(h) && |Bytes(h)| < h[0].totalLen && |h| == 1
    ensures Represents(Run(s, h), h) && Delivered(s, h) == []
  {
    var pdu := h[0];
    assert h == [] + [pdu] == [pdu];
    RunSnoc(s, [], pdu);
    StepStarts(s, pdu);
  }

  lemma RunExtends(s: State, h: seq<Pdu>, front: seq<Pdu>, pdu: Pdu)
    requires h == front + [pdu]
    requires Represents(Run(s, front), front) && Delivered(s, front) == []
    requires pdu.ConsecutiveFrame? && pdu.sequenceNumber == |front| % 16
    requires |Bytes(front)| + |pdu.payload| < front[0].totalLen
    ensures Represents(Run(s, h), h) && Delivered(s, h) == []
  {
    RunSnoc(s, front, pdu);
    StepExtends(Run(s, front), front, pdu);
  }

  /** From any state, a transfer that is not yet complete is what the reassembler holds. */
  lemma {:induction false} RunTransfer(s: State, h: seq<Pdu>)
    requires IsTransfer(h) && |Bytes(h)| < h[0].totalLen
    ensures Represents(Run(s, h), h) && Delivered(s, h) == []
    decreases |h|
  {
    if |h| == 1 {
      RunStarts(s, h);
    } else {
      var j := |h| - 1;
      var front, pdu := h[..j], h[j];
      PartialFront(h, front, pdu);
      RunTransfer(s, front);
      RunExtends(s, h, front, pdu);
    }
  }

  /** From any state, a transfer that its last frame completes is delivered once. */
  lemma RunCompletes(s: State, h: seq<Pdu>)
    requires JustCompleted(h)
    ensures Delivered(s, h) == [Bytes(h)[..h[0].totalLen]]
    ensures Run(s, h).total.None?
  {
    var front, pdu := h[..|h| - 1], h[|h| - 1];
    assert h == front + [pdu];
    if front == [] {
      StepStarts(s, pdu);
    } else {
      RunTransfer(s, front);
      StepAccepts(Run(s, front), front, pdu);
    }
  }

  lemma CompletesWith(s: State, h: seq<Pdu>, b: seq<byte>, total: nat)
    requires JustCompleted(h) && b == Bytes(h) && total == h[0].totalLen
    ensures total <= |b| && Delivered(s, h) == [b[..total]]
  {
    RunCompletes(s, h);
  }

  lemma CompletedBy(h: seq<Pdu>, total: nat)
    requires IsTransfer(h) && h[0].totalLen == total
    requires |Bytes(h)| >= total && |Bytes(h[..|h| - 1])| < total
    ensures JustCompleted(h)
  {
  }

  lemma CompletesExactly(s: State, h: seq<Pdu>, data: seq<byte>)
    requires JustCompleted(h) && Bytes(h) == data && |data| == h[0].totalLen
    ensures Delivered(s, h) == [data]
  {
    assert data[..|data|] == data;
    RunCompletes(s, h);
  }

  /** Consecutive frames do nothing while no transfer is active. */
  lemma {:induction false} RunIdle(s: State, stream: seq<Pdu>)
    requires s.total.None?
    requires forall p <- stream :: p.ConsecutiveFrame? || p.FlowControl?
    ensures Run(s, stream) == s && Delivered(s, stream) == []
  {
    if stream != [] {
      RunIdle(s, stream[..|stream| - 1]);
      assert stream[|stream| - 1] in stream;
    }
  }
}
