/** A channel that may drop, duplicate and reorder the units of one transfer at will. */
module ReorderingChannel {
  import opened Bits
  import opened Wrappers
  import opened IsoTp
  import opened Channel

  ghost predicate SentUnits(stream: seq<Pdu>, payload: seq<byte>, c: nat)
    requires c >= 2
  {
    forall j | 0 <= j < |stream| :: stream[j] in Segmentation(payload, c)
  }

  /** Everything an idle reassembler delivers from the stream is the original payload. */
  ghost predicate DeliversOnly(payload: seq<byte>, c: nat, s: State, stream: seq<Pdu>)
    requires c >= 2
  {
    s.total.None? && SentUnits(stream, payload, c) ==>
      forall j | 0 <= j < |Delivered(s, stream)| :: Delivered(s, stream)[j] == payload
  }

  /** The reassembler holds the first frame and the first `k` consecutive frames. */
  predicate Holds(s: State, payload: seq<byte>, c: nat, k: nat)
    requires 2 <= c <= |payload|
  {
    s == State(Some(|payload|), (k + 1) % 16, payload[..Min(End(c, k), |payload|)])
  }

  lemma UnitOf(payload: seq<byte>, c: nat, pdu: Pdu) returns (i: nat)
    requires 2 <= c <= |payload| && pdu in Segmentation(payload, c)
    ensures i <= ConsecutiveCount(|payload|, c) && pdu == MultiFrameUnit(payload, c, i)
  {
    var pdus := Segmentation(payload, c);
    i :| 0 <= i < |pdus| && pdus[i] == pdu;
    UnitsIndex(payload, c, |pdus|, i);
  }

  /** The expected number identifies the next frame when there are at most 16 of them. */
  lemma NumberIdentifies(i: nat, k: nat)
    requires 1 <= i <= 16 && k < 16 && i % 16 == (k + 1) % 16
    ensures i == k + 1
  {
  }

  lemma AcceptNext(s: State, payload: seq<byte>, c: nat, k: nat)
    requires 2 <= c <= |payload| && k < ConsecutiveCount(|payload|, c)
    requires Holds(s, payload, c, k)
    ensures var (s', out) := Step(s, MultiFrameUnit(payload, c, k + 1));
            if k + 1 < ConsecutiveCount(|payload|, c) then Holds(s', payload, c, k + 1) && Completed(out) == []
            else s'.total.None? && Completed(out) == [payload]
  {
    BlockFollows(payload, c, k + 1);
    BlockLength(payload, c, k + 1);
    NextIsModular(k + 1);
    CountIsLeast(|payload|, c);
    assert payload[..|payload|] == payload;
  }

  lemma StartTransfer(s: State, payload: seq<byte>, c: nat)
    requires 2 <= c <= |payload|
    ensures var (s', out) := Step(s, MultiFrameUnit(payload, c, 0));
            Holds(s', payload, c, 0) && Completed(out) == []
  {
  }

  predicate Safe(s: State, payload: seq<byte>, c: nat, k: nat)
    requires 2 <= c <= |payload|
  {
    s.total.Some? ==> k < ConsecutiveCount(|payload|, c) && Holds(s, payload, c, k)
  }

  /** One unit of the transfer keeps a safe state safe and completes nothing but the payload. */
  lemma ReorderingStep(s: State, payload: seq<byte>, c: nat, pdu: Pdu, k: nat) returns (k': nat)
    requires 2 <= c <= |payload| && ConsecutiveCount(|payload|, c) <= 16
    requires Safe(s, payload, c, k) && pdu in Segmentation(payload, c)
    ensures Safe(Step(s, pdu).0, payload, c, k')
    ensures Completed(Step(s, pdu).1) == [] || Completed(Step(s, pdu).1) == [payload]
  {
    var i := UnitOf(payload, c, pdu);
    k' := k;
    if i == 0 {
      CountIsLeast(|payload|, c);
      StartTransfer(s, payload, c);
      k' := 0;
    } else if s.total.Some? && i % 16 == s.nextSeq {
      NumberIdentifies(i, k);
      AcceptNext(s, payload, c, k);
      k' := k + 1;
    }
  }

  lemma {:induction false} ReorderingRun(s: State, payload: seq<byte>, c: nat, stream: seq<Pdu>) returns (k: nat)
    requires 2 <= c <= |payload| && ConsecutiveCount(|payload|, c) <= 16
    requires s.total.None? && SentUnits(stream, payload, c)
    ensures Safe(Run(s, stream), payload, c, k)
    ensures forall j | 0 <= j < |Delivered(s, stream)| :: Delivered(s, stream)[j] == payload
    decreases |stream|
  {
    k := 0;
    if stream != [] {
      var front, pdu := stream[..|stream| - 1], stream[|stream| - 1];
      assert stream == front + [pdu];
      k := ReorderingRun(s, payload, c, front);
      RunSnoc(s, front, pdu);
      k := ReorderingStep(Run(s, front), payload, c, pdu, k);
    }
  }

  /** With at most 16 consecutive frames no stream of them makes a wrong payload. */
  lemma ReorderingSafe(s: State, payload: seq<byte>, c: nat, stream: seq<Pdu>)
    requires c >= 2
    requires |payload| >= c ==> ConsecutiveCount(|payload|, c) <= 16
    ensures DeliversOnly(payload, c, s, stream)
  {
    if s.total.None? && SentUnits(stream, payload, c) {
      if |payload| >= c {
        var _ := ReorderingRun(s, payload, c, stream);
      } else {
        SingleFramesOnly(s, payload, stream);
      }
    }
  }

  lemma {:induction false} SingleFramesOnly(s: State, payload: seq<byte>, stream: seq<Pdu>)
    requires forall j | 0 <= j < |stream| :: stream[j] == SingleFrame(payload)
    ensures Run(s, stream) == s
    ensures Delivered(s, stream) == seq(|stream|, _ => payload)
  {
    if stream != [] {
      SingleFramesOnly(s, payload, stream[..|stream| - 1]);
    }
  }

  // ---- 17 consecutive frames are too many ----

  /** A payload whose first consecutive frame alone carries ones. */
  function Marked(len: nat, c: nat): (payload: seq<byte>)
    requires c >= 2
    ensures |payload| == len
  {
    seq(len, j => if c - 2 <= j < End(c, 1) then 1 else 0)
  }

  /** The units in order, with the first consecutive frame once more in place of the
      one `w` later, which has the same number when `w` is a multiple of 16. */
  function SubstitutedIndex(w: nat, i: nat): nat {
    if i == w + 1 then 1 else i
  }

  function SubstitutedUnit(payload: seq<byte>, c: nat, w: nat, i: nat): Pdu
    requires 2 <= c <= |payload|
  {
    MultiFrameUnit(payload, c, SubstitutedIndex(w, i))
  }

  function Substituted(payload: seq<byte>, c: nat, w: nat, k: nat): (stream: seq<Pdu>)
    requires 2 <= c <= |payload|
    ensures |stream| == k
  {
    if k == 0 then []
    else Substituted(payload, c, w, k - 1) + [SubstitutedUnit(payload, c, w, k - 1)]
  }

  lemma {:induction false} SubstitutedSent(payload: seq<byte>, c: nat, w: nat, k: nat)
    requires 2 <= c <= |payload| && k <= 1 + ConsecutiveCount(|payload|, c)
    ensures SentUnits(Substituted(payload, c, w, k), payload, c)
    decreases k
  {
    if k > 0 {
      var i := SubstitutedIndex(w, k - 1);
      SubstitutedSent(payload, c, w, k - 1);
      CountIsLeast(|payload|, c);
      UnitsIndex(payload, c, 1 + ConsecutiveCount(|payload|, c), i);
    }
  }

  lemma {:induction false} SubstitutedIsTransfer(payload: seq<byte>, c: nat, w: nat, k: nat)
    requires 2 <= c <= |payload| && w % 16 == 0 && k >= 1
    ensures IsTransfer(Substituted(payload, c, w, k))
    ensures Substituted(payload, c, w, k)[0] == FirstFrame(|payload|, payload[..c - 2])
    decreases k
  {
    if k > 1 {
      SubstitutedIsTransfer(payload, c, w, k - 1);
    }
  }

  /** The bytes those units carry. */
  function SubstitutedBytes(payload: seq<byte>, c: nat, w: nat, k: nat): seq<byte>
    requires 2 <= c <= |payload|
  {
    if k == 0 then [] else SubstitutedBytes(payload, c, w, k - 1) + SubstitutedUnit(payload, c, w, k - 1).payload
  }

  lemma {:induction false} SubstitutedCarries(payload: seq<byte>, c: nat, w: nat, k: nat)
    requires 2 <= c <= |payload|
    ensures Bytes(Substituted(payload, c, w, k)) == SubstitutedBytes(payload, c, w, k)
    decreases k
  {
    if k > 0 {
      var j := k - 1;
      SubstitutedCarries(payload, c, w, j);
      BytesSnoc(Substituted(payload, c, w, j), SubstitutedUnit(payload, c, w, j));
    }
  }

  lemma SubstitutedGrows(payload: seq<byte>, c: nat, w: nat, k: nat)
    requires 2 <= c <= |payload| && k >= 2
    ensures SubstitutedBytes(payload, c, w, k)
         == SubstitutedBytes(payload, c, w, k - 1) + Block(payload, c, SubstitutedIndex(w, k - 1))
  {
  }

  lemma BlockFills(payload: seq<byte>, c: nat, k: nat, i: nat)
    requires 2 <= c <= |payload| && 1 <= k <= ConsecutiveCount(|payload|, c) && (i == 1 || i == k)
    ensures if k < ConsecutiveCount(|payload|, c)
            then End(c, k - 1) + |Block(payload, c, i)| == End(c, k) < |payload|
            else End(c, k - 1) + |Block(payload, c, i)| >= |payload|
  {
    CountIsLeast(|payload|, c);
    BlockLength(payload, c, 1);
    BlockLength(payload, c, k);
  }

  /** The substituted stream is complete only with its last frame. */
  lemma {:induction false} SubstitutedLength(payload: seq<byte>, c: nat, w: nat, k: nat)
    requires 2 <= c <= |payload| && 1 <= k <= 1 + ConsecutiveCount(|payload|, c)
    ensures var length := |SubstitutedBytes(payload, c, w, k)|;
            if k <= ConsecutiveCount(|payload|, c) then length == End(c, k - 1) < |payload| else length >= |payload|
    decreases k
  {
    var j := k - 1;
    if k == 1 {
      CountIsLeast(|payload|, c);
    } else {
      SubstitutedLength(payload, c, w, j);
      SubstitutedGrows(payload, c, w, k);
      BlockFills(payload, c, j, SubstitutedIndex(w, j));
    }
  }

  lemma ByteAfter(earlier: seq<byte>, block: seq<byte>, p: nat)
    ensures p < |earlier| ==> (earlier + block)[p] == earlier[p]
    ensures p == |earlier| && block != [] ==> (earlier + block)[p] == block[0]
  {
  }

  predicate ByteIs(b: seq<byte>, p: nat, x: byte) {
    p < |b| && b[p] == x
  }

  lemma BlockStarts(payload: seq<byte>, c: nat, earlier: seq<byte>, p: nat)
    requires 2 <= c <= |payload| && |earlier| == p
    ensures ByteIs(earlier + Block(payload, c, 1), p, payload[c - 2])
  {
    var block := Block(payload, c, 1);
    CountIsLeast(|payload|, c);
    BlockLength(payload, c, 1);
    assert block[0] == payload[c - 2];
    ByteAfter(earlier, block, p);
  }

  /** From frame `w + 1` on, the bytes hold the first block where that frame's belongs. */
  lemma {:induction false} SubstitutedByte(payload: seq<byte>, c: nat, w: nat, k: nat)
    requires 2 <= c <= |payload| && 1 <= w < ConsecutiveCount(|payload|, c) && w + 2 <= k
    ensures ByteIs(SubstitutedBytes(payload, c, w, k), End(c, w), payload[c - 2])
    decreases k
  {
    var j, p := k - 1, End(c, w);
    var earlier := SubstitutedBytes(payload, c, w, j);
    SubstitutedGrows(payload, c, w, k);
    if j == w + 1 {
      SubstitutedLength(payload, c, w, j);
      BlockStarts(payload, c, earlier, p);
    } else {
      SubstitutedByte(payload, c, w, j);
      ByteAfter(earlier, Block(payload, c, j), p);
    }
  }

  lemma SubstitutedCompletes(payload: seq<byte>, c: nat, w: nat, stream: seq<Pdu>, n: nat)
    requires 2 <= c <= |payload| && w % 16 == 0
    requires n == 1 + ConsecutiveCount(|payload|, c) && stream == Substituted(payload, c, w, n)
    ensures JustCompleted(stream) && stream[0].totalLen == |payload|
  {
    var m := n - 1;
    CountIsLeast(|payload|, c);
    SubstitutedIsTransfer(payload, c, w, n);
    assert |Bytes(stream)| >= |payload| by {
      SubstitutedCarries(payload, c, w, n);
      SubstitutedLength(payload, c, w, n);
    }
    assert |Bytes(stream[..m])| < |payload| by {
      assert stream[..m] == Substituted(payload, c, w, m);
      SubstitutedCarries(payload, c, w, m);
      SubstitutedLength(payload, c, w, m);
    }
    CompletedBy(stream, |payload|);
  }

  /** The byte at `p` differs from the first one of the first block. */
  predicate Tells(payload: seq<byte>, c: nat, p: nat) {
    2 <= c && c - 2 < |payload| && p < |payload| && payload[p] != payload[c - 2]
  }

  lemma MarkedTells(len: nat, c: nat, w: nat)
    requires 2 <= c <= len && 1 <= w < ConsecutiveCount(len, c)
    ensures Tells(Marked(len, c), c, End(c, w))
  {
    EndMonotone(c, 1, w);
    BlockLength(Marked(len, c), c, w + 1);
  }

  lemma ByteDiffers(b: seq<byte>, payload: seq<byte>, c: nat, p: nat)
    requires Tells(payload, c, p) && ByteIs(b, p, payload[c - 2]) && |b| >= |payload|
    ensures b[..|payload|] != payload
  {
    assert b[..|payload|][p] != payload[p];
  }

  lemma SubstitutedDiffers(payload: seq<byte>, c: nat, w: nat, stream: seq<Pdu>, n: nat)
    requires 2 <= c <= |payload| && 1 <= w < ConsecutiveCount(|payload|, c)
    requires Tells(payload, c, End(c, w))
    requires n == 1 + ConsecutiveCount(|payload|, c) && stream == Substituted(payload, c, w, n)
    ensures |Bytes(stream)| >= |payload| && Bytes(stream)[..|payload|] != payload
  {
    SubstitutedCarries(payload, c, w, n);
    SubstitutedLength(payload, c, w, n);
    SubstitutedByte(payload, c, w, n);
    ByteDiffers(Bytes(stream), payload, c, End(c, w));
  }

  lemma WrongPayload(s: State, payload: seq<byte>, stream: seq<Pdu>, b: seq<byte>) returns (out: seq<seq<byte>>)
    requires JustCompleted(stream) && stream[0].totalLen == |payload| && Bytes(stream) == b
    requires |b| >= |payload| && b[..|payload|] != payload
    ensures out == Delivered(s, stream) && |out| == 1 && out[0] != payload
  {
    CompletesWith(s, stream, b, |payload|);
    out := [b[..|payload|]];
  }

  lemma SubstitutedDelivers(s: State, payload: seq<byte>, c: nat, w: nat, stream: seq<Pdu>, n: nat)
    returns (out: seq<seq<byte>>)
    requires 2 <= c <= |payload| && w % 16 == 0 && 1 <= w < ConsecutiveCount(|payload|, c)
    requires Tells(payload, c, End(c, w))
    requires n == 1 + ConsecutiveCount(|payload|, c) && stream == Substituted(payload, c, w, n)
    ensures out == Delivered(s, stream) && |out| == 1 && out[0] != payload
  {
    SubstitutedCompletes(payload, c, w, stream, n);
    SubstitutedDiffers(payload, c, w, stream, n);
    out := WrongPayload(s, payload, stream, Bytes(stream));
  }

  /** Any length that needs 17 or more consecutive frames has a payload and a stream of its
      own units that complete with the wrong bytes. */
  lemma ReorderingUnsafe(s: State, payload: seq<byte>, c: nat, w: nat, n: nat)
    requires 2 <= c <= |payload| && w % 16 == 0 && 1 <= w < ConsecutiveCount(|payload|, c)
    requires payload == Marked(|payload|, c) && n == 1 + ConsecutiveCount(|payload|, c)
    requires s.total.None?
    ensures !DeliversOnly(payload, c, s, Substituted(payload, c, w, n))
  {
    var stream := Substituted(payload, c, w, n);
    MarkedTells(|payload|, c, w);
    SubstitutedSent(payload, c, w, n);
    var out := SubstitutedDelivers(s, payload, c, w, stream, n);
    assert out[0] != payload;
  }

  /** Sixteen consecutive frames are exactly what an adversarial channel can be trusted with. */
  lemma ReorderingSafeIff(len: nat, c: nat)
    requires 2 <= c <= len
    ensures (forall payload, s, stream | |payload| == len :: DeliversOnly(payload, c, s, stream))
       <==> ConsecutiveCount(len, c) <= 16
  {
    if ConsecutiveCount(len, c) <= 16 {
      forall payload, s, stream | |payload| == len
        ensures DeliversOnly(payload, c, s, stream)
      {
        ReorderingSafe(s, payload, c, stream);
      }
    } else {
      ReorderingUnsafe(State(None, 0, []), Marked(len, c), c, 16, 1 + ConsecutiveCount(len, c));
    }
  }
}
