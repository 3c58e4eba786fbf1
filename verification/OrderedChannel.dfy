/** A channel that keeps order but may lose units and repeat them at once, the padding of
    last frames, back-to-back transfers, and foreign frames between them. */
module OrderedChannel {
  import opened Bits
  import opened Wrappers
  import opened IsoTp
  import opened Channel
  import opened ReorderingChannel

  /** A payload, the bytes its last consecutive frame is padded with, and the numbers of the
      units that arrive, in order of arrival. */
  datatype Transfer = Transfer(payload: seq<byte>, capacity: nat, pad: seq<byte>, indices: seq<nat>)

  predicate Multi(t: Transfer) {
    2 <= t.capacity <= |t.payload|
  }

  function LastUnit(t: Transfer): nat {
    if Multi(t) then ConsecutiveCount(|t.payload|, t.capacity) else 0
  }

  /** Unit `i` as sent: the last consecutive frame carries the padding too. */
  function SentUnit(t: Transfer, i: nat): Pdu {
    if !Multi(t) then SingleFrame(t.payload)
    else if i > 0 && i == LastUnit(t) then ConsecutiveFrame(i % 16, Block(t.payload, t.capacity, i) + t.pad)
    else MultiFrameUnit(t.payload, t.capacity, i)
  }

  function Sent(t: Transfer, indices: seq<nat>): seq<Pdu> {
    if indices == [] then []
    else Sent(t, indices[..|indices| - 1]) + [SentUnit(t, indices[|indices| - 1])]
  }

  predicate Ordered(indices: seq<nat>) {
    forall j, k | 0 <= j < k < |indices| :: indices[j] <= indices[k]
  }

  predicate Lossless(t: Transfer) {
    forall i | 0 <= i <= LastUnit(t) :: i in t.indices
  }

  predicate PadFits(t: Transfer) {
    Multi(t) ==> |SentUnit(t, LastUnit(t)).payload| <= t.capacity - 1
  }

  /** What such a channel can do to a transfer. A padded frame still fits its capacity,
      which only matters when something was lost. */
  predicate ValidTransfer(t: Transfer) {
    && t.capacity >= 2
    && InRange(t.indices, LastUnit(t) + 1)
    && Ordered(t.indices)
    && (PadFits(t) || Lossless(t))
  }

  predicate FirstArrives(t: Transfer) {
    t.indices != [] && t.indices[0] == 0
  }

  /** The payloads that should come out: each arriving single frame, or the multi-frame
      payload once if no unit was lost and nothing otherwise. */
  function Expected(t: Transfer): seq<seq<byte>> {
    if !Multi(t) then seq(|t.indices|, _ => t.payload)
    else if Lossless(t) then [t.payload]
    else []
  }

  // ---- arrivals without a gap ----

  predicate Gapless(indices: seq<nat>) {
    && indices != []
    && indices[0] == 0
    && forall j | 0 < j < |indices| :: indices[j] <= indices[j - 1] + 1
  }

  lemma {:induction false} GaplessContains(indices: seq<nat>, i: nat)
    requires Gapless(indices) && Ordered(indices) && i <= indices[|indices| - 1]
    ensures i in indices
    decreases |indices|
  {
    if i != indices[|indices| - 1] {
      GaplessContains(indices[..|indices| - 1], i);
    }
  }

  lemma GapMissing(indices: seq<nat>, j: nat)
    requires Ordered(indices) && 0 < j < |indices| && indices[j] > indices[j - 1] + 1
    ensures indices[j - 1] + 1 !in indices
  {
  }

  lemma LosslessIsGapless(t: Transfer)
    requires InRange(t.indices, LastUnit(t) + 1) && Ordered(t.indices)
    ensures Lossless(t) <==> Gapless(t.indices) && t.indices[|t.indices| - 1] == LastUnit(t)
  {
    var indices := t.indices;
    if Lossless(t) {
      assert 0 in indices && LastUnit(t) in indices;
      forall j | 0 < j < |indices|
        ensures indices[j] <= indices[j - 1] + 1
      {
        if indices[j] > indices[j - 1] + 1 {
          assert indices[j - 1] + 1 in indices;
          GapMissing(indices, j);
        }
      }
    } else if Gapless(indices) && indices[|indices| - 1] == LastUnit(t) {
      forall i | 0 <= i <= LastUnit(t)
        ensures i in indices
      {
        GaplessContains(indices, i);
      }
    }
  }

  // ---- one transfer ----

  /** Something was lost: `k` consecutive frames were accepted, fewer than the number of the
      latest arrival, and that arrival will not be accepted again. */
  predicate Short(s: State, t: Transfer, latest: nat, k: nat)
    requires Multi(t)
  {
    && s.total == Some(|t.payload|)
    && s.nextSeq == (k + 1) % 16
    && |s.buffer| <= End(t.capacity, k)
    && k < latest
    && latest % 16 != s.nextSeq
  }

  predicate OnTrack(s: State, t: Transfer, latest: nat)
    requires Multi(t)
  {
    if latest == LastUnit(t) then s.total.None? else Holds(s, t.payload, t.capacity, latest)
  }

  lemma SentLength(t: Transfer, i: nat)
    requires Multi(t) && PadFits(t) && 1 <= i <= LastUnit(t)
    ensures SentUnit(t, i).ConsecutiveFrame? && SentUnit(t, i).sequenceNumber == i % 16
    ensures |SentUnit(t, i).payload| <= t.capacity - 1
  {
    BlockLength(t.payload, t.capacity, i);
  }

  /** Accepting the unit that follows without a gap. */
  lemma OnTrackNext(s: State, t: Transfer, latest: nat)
    requires Multi(t) && latest < LastUnit(t) && Holds(s, t.payload, t.capacity, latest)
    ensures var (s', out) := Step(s, SentUnit(t, latest + 1));
            && OnTrack(s', t, latest + 1)
            && Completed(out) == if latest + 1 == LastUnit(t) then [t.payload] else []
  {
    var c, x := t.capacity, latest + 1;
    AcceptNext(s, t.payload, c, latest);
    if x == LastUnit(t) {
      CountIsLeast(|t.payload|, c);
      BlockFollows(t.payload, c, x);
      var exact := t.payload[..Min(End(c, latest), |t.payload|)] + Block(t.payload, c, x);
      assert exact == t.payload;
      assert s.buffer + (Block(t.payload, c, x) + t.pad) == t.payload + t.pad;
    }
  }

  lemma NextDiffers(k: nat)
    ensures k % 16 != (k + 1) % 16
  {
  }

  lemma ShortAccepts(s: State, t: Transfer, k: nat, x: nat)
    requires Multi(t) && PadFits(t) && k + 1 < x <= LastUnit(t)
    requires s.total == Some(|t.payload|) && s.nextSeq == (k + 1) % 16 && |s.buffer| <= End(t.capacity, k)
    requires x % 16 == s.nextSeq
    ensures Short(Step(s, SentUnit(t, x)).0, t, x, k + 1) && Completed(Step(s, SentUnit(t, x)).1) == []
  {
    var c, size, unit, j := t.capacity, |t.payload|, SentUnit(t, x), k + 1;
    assert unit.ConsecutiveFrame? && unit.sequenceNumber == s.nextSeq && |unit.payload| <= c - 1 by {
      SentLength(t, x);
    }
    assert End(c, j) < size by {
      CountIsLeast(size, c);
      EndMonotone(c, j, LastUnit(t) - 1);
    }
    NextIsModular(j);
    NextDiffers(j);
  }

  /** A unit that comes while something is missing never completes the transfer. */
  lemma ShortNext(s: State, t: Transfer, k: nat, x: nat) returns (k': nat)
    requires Multi(t) && PadFits(t) && k < x <= LastUnit(t)
    requires s.total == Some(|t.payload|) && s.nextSeq == (k + 1) % 16 && |s.buffer| <= End(t.capacity, k)
    requires x % 16 == s.nextSeq ==> k + 1 < x
    ensures Short(Step(s, SentUnit(t, x)).0, t, x, k') && Completed(Step(s, SentUnit(t, x)).1) == []
  {
    if x % 16 == s.nextSeq {
      k' := k + 1;
      ShortAccepts(s, t, k, x);
    } else {
      k' := k;
      SentLength(t, x);
    }
  }

  /** What is known once the units numbered `indices` have arrived. */
  predicate Progress(s: State, t: Transfer, indices: seq<nat>, k: nat)
    requires Multi(t) && indices != []
  {
    var latest := indices[|indices| - 1];
    if Gapless(indices) then OnTrack(s, t, latest) else Short(s, t, latest, k)
  }

  predicate Done(t: Transfer, indices: seq<nat>)
    requires Multi(t)
  {
    Gapless(indices) && indices[|indices| - 1] == LastUnit(t)
  }

  lemma ProgressNext(s: State, t: Transfer, front: seq<nat>, x: nat, k: nat) returns (k': nat)
    requires Multi(t) && front != [] && x <= LastUnit(t) && front[|front| - 1] <= x
    requires front[0] == 0
    requires PadFits(t) || Gapless(front + [x])
    requires Progress(s, t, front, k)
    ensures Progress(Step(s, SentUnit(t, x)).0, t, front + [x], k')
    ensures Completed(Step(s, SentUnit(t, x)).1)
         == if Done(t, front + [x]) && !Done(t, front) then [t.payload] else []
  {
    var latest := front[|front| - 1];
    GaplessSnoc(front, x);
    k' := k;
    if x == latest {
      if Gapless(front) {
        Repeated(s, t, x);
      } else {
        ShortRepeated(s, t, x, k);
      }
    } else if Gapless(front) && x == latest + 1 {
      OnTrackNext(s, t, latest);
    } else {
      k' := ShortNext(s, t, if Gapless(front) then latest else k, x);
    }
  }

  lemma GaplessSnoc(front: seq<nat>, x: nat)
    requires front != []
    ensures Gapless(front + [x]) <==> Gapless(front) && x <= front[|front| - 1] + 1
  {
    var indices := front + [x];
    if Gapless(indices) {
      assert indices[|front|] <= indices[|front| - 1] + 1;
      forall j | 0 < j < |front|
        ensures front[j] <= front[j - 1] + 1
      {
        assert indices[j] <= indices[j - 1] + 1;
      }
    }
  }

  lemma ProgressStarts(s: State, t: Transfer)
    requires Multi(t)
    ensures Progress(Step(s, SentUnit(t, 0)).0, t, [0], 0) && !Done(t, [0])
    ensures Completed(Step(s, SentUnit(t, 0)).1) == []
  {
    StartTransfer(s, t.payload, t.capacity);
    CountIsLeast(|t.payload|, t.capacity);
  }

  /** Invariant of a multi-frame transfer whose first frame arrives, from any state. */
  lemma {:induction false} TransferRun(s: State, t: Transfer, indices: seq<nat>) returns (k: nat)
    requires Multi(t) && Ordered(indices) && InRange(indices, LastUnit(t) + 1)
    requires indices != [] && indices[0] == 0
    requires PadFits(t) || Gapless(indices)
    ensures Progress(Run(s, Sent(t, indices)), t, indices, k)
    ensures Delivered(s, Sent(t, indices)) == if Done(t, indices) then [t.payload] else []
    decreases |indices|
  {
    var front, x := indices[..|indices| - 1], indices[|indices| - 1];
    assert indices == front + [x];
    RunSnoc(s, Sent(t, front), SentUnit(t, x));
    if front == [] {
      k := 0;
      ProgressStarts(s, t);
      assert indices == [0];
    } else {
      assert Done(t, front) ==> x == front[|front| - 1];
      GaplessSnoc(front, x);
      k := TransferRun(s, t, front);
      k := ProgressNext(Run(s, Sent(t, front)), t, front, x, k);
    }
  }

  /** A unit that is repeated at once is rejected, or restarts a transfer that just began. */
  lemma Repeated(s: State, t: Transfer, x: nat)
    requires Multi(t) && x <= LastUnit(t) && OnTrack(s, t, x)
    ensures OnTrack(Step(s, SentUnit(t, x)).0, t, x) && Completed(Step(s, SentUnit(t, x)).1) == []
  {
    CountIsLeast(|t.payload|, t.capacity);
    if x == 0 {
      StartTransfer(s, t.payload, t.capacity);
    }
  }

  lemma ShortRepeated(s: State, t: Transfer, x: nat, k: nat)
    requires Multi(t) && x <= LastUnit(t) && Short(s, t, x, k)
    ensures Step(s, SentUnit(t, x)).0 == s && Completed(Step(s, SentUnit(t, x)).1) == []
  {
  }

  lemma {:induction false} SentSingles(t: Transfer, indices: seq<nat>)
    requires !Multi(t)
    ensures |Sent(t, indices)| == |indices|
    ensures forall j | 0 <= j < |indices| :: Sent(t, indices)[j] == SingleFrame(t.payload)
  {
    if indices != [] {
      SentSingles(t, indices[..|indices| - 1]);
    }
  }

  /** From any state, a transfer whose first unit arrives delivers exactly its payload if
      nothing was lost, however long it is, and nothing otherwise. */
  lemma TransferDelivers(s: State, t: Transfer)
    requires ValidTransfer(t) && FirstArrives(t)
    ensures Delivered(s, Sent(t, t.indices)) == Expected(t)
  {
    if Multi(t) {
      LosslessIsGapless(t);
      var _ := TransferRun(s, t, t.indices);
    } else {
      SentSingles(t, t.indices);
      SingleFramesOnly(s, t.payload, Sent(t, t.indices));
    }
  }

  lemma {:induction false} SentConsecutive(t: Transfer, indices: seq<nat>)
    requires Multi(t) && forall j | 0 <= j < |indices| :: indices[j] > 0
    ensures forall p <- Sent(t, indices) :: p.ConsecutiveFrame?
  {
    if indices != [] {
      SentConsecutive(t, indices[..|indices| - 1]);
    }
  }

  /** From an idle state the same holds even when the first unit is lost. */
  lemma TransferDeliversFromIdle(s: State, t: Transfer)
    requires ValidTransfer(t) && s.total.None?
    ensures Delivered(s, Sent(t, t.indices)) == Expected(t)
  {
    if FirstArrives(t) {
      TransferDelivers(s, t);
    } else {
      assert 0 !in t.indices;
      if t.indices != [] {
        SentConsecutive(t, t.indices);
        RunIdle(s, Sent(t, t.indices));
      }
    }
  }

  // ---- what is reported ----

  lemma NumbersDiffer(latest: nat, x: nat)
    requires x > latest
    ensures x % 16 == (latest + 1) % 16 <==> (x - latest - 1) % 16 == 0
  {
    var gap := x - latest - 1;
    assert x == (latest + 1) + gap;
    assert ((latest + 1) + gap) % 16 == ((latest + 1) % 16 + gap % 16) % 16;
  }

  lemma SentNumber(t: Transfer, x: nat)
    requires Multi(t) && 1 <= x <= LastUnit(t)
    ensures SentUnit(t, x).ConsecutiveFrame? && SentUnit(t, x).sequenceNumber == x % 16
  {
  }

  /** The first unit behind a loss is reported, with the number that was due and its own,
      exactly when the number of lost units is no multiple of 16. */
  lemma LossReportedIff(s: State, t: Transfer, indices: seq<nat>, latest: nat, x: nat)
    requires Multi(t) && Ordered(indices) && Gapless(indices)
    requires latest == indices[|indices| - 1] < x <= LastUnit(t)
    ensures var r := Step(Run(s, Sent(t, indices)), SentUnit(t, x)).1;
            && (r.Failure? <==> (x - latest - 1) % 16 != 0)
            && (r.Failure? ==> r.error == SequenceNumberMismatch((latest + 1) % 16, x % 16))
  {
    assert InRange(indices, LastUnit(t) + 1);
    var _ := TransferRun(s, t, indices);
    NumbersDiffer(latest, x);
    SentNumber(t, x);
  }

  // ---- when the first unit is lost ----

  function Upto(k: nat): (indices: seq<nat>)
    ensures |indices| == k
    ensures forall j | 0 <= j < k :: indices[j] == j
  {
    seq(k, j => j)
  }

  lemma {:induction false} SentUpto(t: Transfer, k: nat)
    requires Multi(t) && k <= LastUnit(t)
    ensures Sent(t, Upto(k)) == Units(t.payload, t.capacity, k)
  {
    if k > 0 {
      var j := k - 1;
      SentUpto(t, j);
      assert Upto(k)[..k - 1] == Upto(k - 1);
    }
  }

  /** The bytes that consecutive frame `i` carries for a payload of `len` bytes when the last
      one has `pad` bytes of padding. */
  function UnitSize(len: nat, c: nat, pad: nat, i: nat): nat
    requires 2 <= c <= len && i >= 1
  {
    EndMonotone(c, i - 1, i);
    Min(End(c, i), len) - Min(End(c, i - 1), len) + if i == ConsecutiveCount(len, c) then pad else 0
  }

  lemma SentSize(t: Transfer, i: nat)
    requires Multi(t) && 1 <= i <= LastUnit(t)
    ensures SentUnit(t, i).ConsecutiveFrame? && SentUnit(t, i).sequenceNumber == i % 16
    ensures |SentUnit(t, i).payload| == UnitSize(|t.payload|, t.capacity, |t.pad|, i)
  {
  }

  /** Where the last consecutive frame begins. */
  function LastStart(len: nat, c: nat): (start: nat)
    requires 2 <= c <= len
    ensures start < len
  {
    CountIsLeast(len, c);
    End(c, ConsecutiveCount(len, c) - 1)
  }

  /** Some consecutive frame of the second transfer has the number of the last one of the
      first, and carries at least as many bytes. */
  ghost predicate Spliceable(first: nat, second: nat, c: nat, pad: nat)
    requires 2 <= c <= first && c <= second
  {
    exists i | 1 <= i <= ConsecutiveCount(second, c) ::
      i % 16 == ConsecutiveCount(first, c) % 16 && LastStart(first, c) + UnitSize(second, c, pad, i) >= first
  }

  lemma {:induction false} UnitsAreTransfer(payload: seq<byte>, c: nat, k: nat)
    requires 2 <= c <= |payload| && k >= 1
    ensures IsTransfer(Units(payload, c, k))
    ensures Units(payload, c, k)[0] == FirstFrame(|payload|, payload[..c - 2])
  {
    forall i | 0 <= i < k
      ensures Units(payload, c, k)[i] == MultiFrameUnit(payload, c, i)
    {
      UnitsIndex(payload, c, k, i);
    }
  }

  lemma SpliceCompletes(payload: seq<byte>, c: nat, n: nat, last: Pdu, h: seq<Pdu>)
    requires 2 <= c <= |payload| && n >= 1
    requires last.ConsecutiveFrame? && last.sequenceNumber == n % 16
    requires End(c, n - 1) < |payload| <= End(c, n - 1) + |last.payload|
    requires h == Units(payload, c, n) + [last]
    ensures JustCompleted(h) && h[0].totalLen == |payload|
    ensures Bytes(h) == payload[..End(c, n - 1)] + last.payload
  {
    var m := n - 1;
    UnitsAreTransfer(payload, c, n);
    TransferSnoc(Units(payload, c, n), last);
    UnitBytes(payload, c, m);
    BeforeSnoc(Units(payload, c, n), last);
    CompletedBy(h, |payload|);
  }

  lemma SpliceStream(a: Transfer, b: Transfer, i: nat)
    requires Multi(a)
    ensures Sent(a, Upto(LastUnit(a))) + Sent(b, [i])
         == Units(a.payload, a.capacity, LastUnit(a)) + [SentUnit(b, i)]
  {
    SentUpto(a, LastUnit(a));
    assert [i][..0] == [] && Sent(b, [i]) == [] + [SentUnit(b, i)];
  }

  lemma CutJoined(a: seq<byte>, b: seq<byte>, total: nat)
    requires |a| <= total <= |a| + |b|
    ensures (a + b)[..total] == a + b[..total - |a|]
  {
  }

  lemma UnitsSplice(s: State, payload: seq<byte>, c: nat, n: nat, last: Pdu, start: nat)
    requires 2 <= c <= |payload| && n >= 1
    requires last.ConsecutiveFrame? && last.sequenceNumber == n % 16
    requires start == End(c, n - 1) < |payload| <= start + |last.payload|
    ensures Delivered(s, Units(payload, c, n) + [last]) == [payload[..start] + last.payload[..|payload| - start]]
  {
    var h := Units(payload, c, n) + [last];
    SpliceCompletes(payload, c, n, last, h);
    CompletesWith(s, h, payload[..start] + last.payload, |payload|);
    CutJoined(payload[..start], last.payload, |payload|);
  }

  /** All units of transfer `a` but the last, and then a unit `i` of transfer `b` with the same
      number that is long enough: the reassembler hands out a mixture of the two payloads. */
  lemma SpliceDelivers(s: State, a: Transfer, b: Transfer, i: nat, start: nat)
    requires Multi(a) && Multi(b) && start == LastStart(|a.payload|, a.capacity)
    requires 1 <= i <= LastUnit(b) && i % 16 == LastUnit(a) % 16
    requires |a.payload| <= start + |SentUnit(b, i).payload|
    ensures Delivered(s, Sent(a, Upto(LastUnit(a))) + Sent(b, [i]))
         == [a.payload[..start] + SentUnit(b, i).payload[..|a.payload| - start]]
  {
    var n, c, last := LastUnit(a), a.capacity, SentUnit(b, i);
    assert last.ConsecutiveFrame? && last.sequenceNumber == n % 16 by { SentSize(b, i); }
    assert n >= 1 && start == End(c, n - 1) by { CountIsLeast(|a.payload|, c); }
    UnitsSplice(s, a.payload, c, n, last, start);
    SpliceStream(a, b, i);
  }

  /** A transfer that began and lost something. */
  predicate Broken(t: Transfer) {
    ValidTransfer(t) && Multi(t) && FirstArrives(t) && !Lossless(t)
  }

  /** A transfer of which at most consecutive frames arrive. */
  predicate Beheaded(t: Transfer) {
    ValidTransfer(t) && Multi(t) && 0 !in t.indices
  }

  /** Padding fits, and no unit of `b` can stand in for the last one of `a`. */
  ghost predicate Separate(a: Transfer, b: Transfer) {
    && Multi(a) && Multi(b) && PadFits(b) && b.capacity == a.capacity
    && !Spliceable(|a.payload|, |b.payload|, a.capacity, |b.pad|)
  }

  function Latest(indices: seq<nat>): nat {
    if indices == [] then 0 else indices[|indices| - 1]
  }

  /** The reassembler holds `k` consecutive frames of one of the two transfers, while the
      latest unit of the second was `latest`, or none of it came yet. */
  predicate Waiting(s: State, a: Transfer, b: Transfer, latest: nat, k: nat)
    requires Multi(a) && Multi(b)
  {
    && s.total == Some(|a.payload|)
    && s.nextSeq == (k + 1) % 16
    && |s.buffer| < |a.payload|
    && k <= LastUnit(a)
    && (k < LastUnit(a) ==> |s.buffer| <= End(a.capacity, k))
    && (k == LastUnit(a) ==> latest == LastUnit(b) && latest % 16 == k % 16)
  }

  lemma BufferWaits(s: State, a: Transfer, b: Transfer, k: nat)
    requires Multi(a) && Multi(b) && k < LastUnit(a)
    requires s.total == Some(|a.payload|) && s.nextSeq == (k + 1) % 16 && |s.buffer| <= End(a.capacity, k)
    ensures Waiting(s, a, b, 0, k)
  {
    CountIsLeast(|a.payload|, a.capacity);
    EndMonotone(a.capacity, k, LastUnit(a) - 1);
  }

  lemma ProgressWaits(s: State, a: Transfer, b: Transfer, indices: seq<nat>, short: nat) returns (k: nat)
    requires Multi(a) && Multi(b) && indices != [] && indices[|indices| - 1] <= LastUnit(a)
    requires Progress(s, a, indices, short) && !Done(a, indices)
    ensures Waiting(s, a, b, 0, k)
  {
    k := if Gapless(indices) then indices[|indices| - 1] else short;
    BufferWaits(s, a, b, k);
  }

  lemma BrokenWaits(s: State, a: Transfer, b: Transfer) returns (k: nat)
    requires Broken(a) && Multi(b)
    ensures Waiting(Run(s, Sent(a, a.indices)), a, b, 0, k)
    ensures Delivered(s, Sent(a, a.indices)) == []
  {
    LosslessIsGapless(a);
    var indices, stream := a.indices, Sent(a, a.indices);
    var short := TransferRun(s, a, indices);
    k := ProgressWaits(Run(s, stream), a, b, indices, short);
  }

  /** Short of the last frame nothing completes, whatever full or partial frame is taken. */
  lemma WaitingAccepts(s: State, a: Transfer, b: Transfer, latest: nat, x: nat, k: nat)
    requires Multi(a) && Multi(b) && PadFits(b) && b.capacity == a.capacity
    requires Waiting(s, a, b, latest, k) && k + 1 < LastUnit(a)
    requires 1 <= x <= LastUnit(b) && x % 16 == s.nextSeq
    ensures Waiting(Step(s, SentUnit(b, x)).0, a, b, x, k + 1) && Completed(Step(s, SentUnit(b, x)).1) == []
  {
    SentLength(b, x);
    CountIsLeast(|a.payload|, a.capacity);
    EndMonotone(a.capacity, k + 1, LastUnit(a) - 1);
    NextIsModular(k + 1);
  }

  /** In place of the last frame only a shorter one can be taken, the last of its transfer. */
  lemma WaitingEnds(s: State, a: Transfer, b: Transfer, latest: nat, x: nat, k: nat)
    requires Separate(a, b) && Waiting(s, a, b, latest, k) && k + 1 == LastUnit(a)
    requires 1 <= x <= LastUnit(b) && x % 16 == s.nextSeq
    ensures Waiting(Step(s, SentUnit(b, x)).0, a, b, x, k + 1) && Completed(Step(s, SentUnit(b, x)).1) == []
  {
    SentSize(b, x);
    assert LastStart(|a.payload|, a.capacity) + UnitSize(|b.payload|, a.capacity, |b.pad|, x) < |a.payload|;
    CountIsLeast(|a.payload|, a.capacity);
    BlockLength(b.payload, b.capacity, x);
    NextIsModular(k + 1);
  }

  lemma WaitingNext(s: State, a: Transfer, b: Transfer, latest: nat, x: nat, k: nat) returns (k': nat)
    requires Separate(a, b)
    requires Waiting(s, a, b, latest, k) && latest <= x && 1 <= x <= LastUnit(b)
    ensures Waiting(Step(s, SentUnit(b, x)).0, a, b, x, k') && Completed(Step(s, SentUnit(b, x)).1) == []
  {
    SentSize(b, x);
    k' := k;
    if x % 16 == s.nextSeq && k < LastUnit(a) {
      k' := k + 1;
      if k + 1 < LastUnit(a) {
        WaitingAccepts(s, a, b, latest, x, k);
      } else {
        WaitingEnds(s, a, b, latest, x, k);
      }
    }
  }

  lemma SentSnoc(t: Transfer, front: seq<nat>, x: nat)
    ensures Sent(t, front + [x]) == Sent(t, front) + [SentUnit(t, x)]
  {
    assert (front + [x])[..|front|] == front;
  }

  lemma WaitingSnoc(s: State, a: Transfer, b: Transfer, front: seq<nat>, x: nat, k: nat) returns (k': nat)
    requires Separate(a, b) && Latest(front) <= x && 1 <= x <= LastUnit(b)
    requires Waiting(Run(s, Sent(b, front)), a, b, Latest(front), k) && Delivered(s, Sent(b, front)) == []
    ensures Waiting(Run(s, Sent(b, front + [x])), a, b, x, k') && Delivered(s, Sent(b, front + [x])) == []
  {
    var stream, unit := Sent(b, front), SentUnit(b, x);
    k' := WaitingNext(Run(s, stream), a, b, Latest(front), x, k);
    SentSnoc(b, front, x);
    RunSnoc(s, stream, unit);
  }

  /** Arrivals of consecutive frames only, in order. */
  predicate Following(indices: seq<nat>, n: nat) {
    Ordered(indices) && forall j | 0 <= j < |indices| :: 1 <= indices[j] <= n
  }

  lemma FollowingSnoc(indices: seq<nat>, n: nat) returns (front: seq<nat>, x: nat)
    requires Following(indices, n) && indices != []
    ensures indices == front + [x] && Following(front, n) && Latest(front) <= x && 1 <= x <= n
  {
    var j := |indices| - 1;
    front, x := indices[..j], indices[j];
  }

  lemma {:induction false} WaitingRun(s: State, a: Transfer, b: Transfer, indices: seq<nat>, k: nat) returns (k': nat)
    requires Separate(a, b) && Waiting(s, a, b, 0, k) && Following(indices, LastUnit(b))
    ensures Waiting(Run(s, Sent(b, indices)), a, b, Latest(indices), k') && Delivered(s, Sent(b, indices)) == []
    decreases |indices|
  {
    if indices == [] {
      k' := k;
    } else {
      var front, x := FollowingSnoc(indices, LastUnit(b));
      k' := WaitingRun(s, a, b, front, k);
      k' := WaitingSnoc(s, a, b, front, x, k');
    }
  }

  /** Behind a broken transfer, one without its first unit completes nothing unless the two
      can be spliced. */
  lemma BeheadedDelivers(s: State, a: Transfer, b: Transfer)
    requires Broken(a) && Beheaded(b) && Separate(a, b)
    ensures Delivered(Run(s, Sent(a, a.indices)), Sent(b, b.indices)) == []
  {
    var k := BrokenWaits(s, a, b);
    forall j | 0 <= j < |b.indices|
      ensures 1 <= b.indices[j] <= LastUnit(b)
    {
      assert b.indices[j] in b.indices;
    }
    var _ := WaitingRun(Run(s, Sent(a, a.indices)), a, b, b.indices, k);
  }

  /** Nothing ever completes when a transfer of one length breaks and one of another length
      then arrives without its first unit, whatever the payloads and the arrivals. */
  ghost predicate NeverSplices(first: nat, second: nat, c: nat, pad: nat) {
    forall s: State, a: Transfer, b: Transfer
      | Broken(a) && |a.payload| == first && a.capacity == c
        && Beheaded(b) && |b.payload| == second && b.capacity == c && |b.pad| == pad ::
      Delivered(s, Sent(a, a.indices) + Sent(b, b.indices)) == []
  }

  lemma SplicePair(first: nat, second: nat, c: nat, pad: nat, i: nat) returns (a: Transfer, b: Transfer)
    requires 2 <= c <= first && c <= second && 1 <= i <= ConsecutiveCount(second, c)
    requires second - LastStart(second, c) + pad <= c - 1
    ensures ConsecutiveCount(first, c) >= 1
    ensures a.capacity == c && |a.payload| == first && a.indices == Upto(ConsecutiveCount(first, c)) && Broken(a)
    ensures b.capacity == c && |b.payload| == second && |b.pad| == pad && b.indices == [i] && Beheaded(b)
  {
    CountIsLeast(first, c);
    CountIsLeast(second, c);
    a := Transfer(seq(first, _ => 0), c, [], Upto(ConsecutiveCount(first, c)));
    b := Transfer(seq(second, _ => 0), c, seq(pad, _ => 0), [i]);
    BlockLength(a.payload, c, LastUnit(a));
    SentSize(b, LastUnit(b));
    assert LastUnit(a) !in a.indices;
  }

  /** Losing a first unit is harmless exactly when the lengths cannot be spliced. */
  lemma LostFirstFrameIff(first: nat, second: nat, c: nat, pad: nat)
    requires 2 <= c <= first && c <= second
    requires second - LastStart(second, c) + pad <= c - 1
    ensures NeverSplices(first, second, c, pad) <==> !Spliceable(first, second, c, pad)
  {
    if Spliceable(first, second, c, pad) {
      var i :| 1 <= i <= ConsecutiveCount(second, c) && i % 16 == ConsecutiveCount(first, c) % 16
        && LastStart(first, c) + UnitSize(second, c, pad, i) >= first;
      var a, b := SplicePair(first, second, c, pad, i);
      SentSize(b, i);
      SpliceDelivers(State(None, 0, []), a, b, i, LastStart(first, c));
    } else {
      forall s: State, a: Transfer, b: Transfer
        | Broken(a) && |a.payload| == first && a.capacity == c
          && Beheaded(b) && |b.payload| == second && b.capacity == c && |b.pad| == pad
        ensures Delivered(s, Sent(a, a.indices) + Sent(b, b.indices)) == []
      {
        var k := BrokenWaits(s, a, b);
        BeheadedDelivers(s, a, b);
        RunAppend(s, Sent(a, a.indices), Sent(b, b.indices));
      }
    }
  }

  // ---- sessions of many transfers ----

  function SessionStream(ts: seq<Transfer>): seq<Pdu> {
    if ts == [] then []
    else SessionStream(ts[..|ts| - 1]) + Sent(ts[|ts| - 1], ts[|ts| - 1].indices)
  }

  function SessionExpected(ts: seq<Transfer>): seq<seq<byte>> {
    if ts == [] then [] else SessionExpected(ts[..|ts| - 1]) + Expected(ts[|ts| - 1])
  }

  /** Transfer `b` cannot be mixed up with the one right before it: its first unit arrives, or
      nothing does, or `a` was received whole, or the two cannot be spliced. */
  ghost predicate Covered(a: Transfer, b: Transfer) {
    || FirstArrives(b)
    || b.indices == []
    || (Multi(a) && FirstArrives(a) && (Lossless(a) || Separate(a, b)))
  }

  /** A session may lose anything, first units too where the transfer before covers that. */
  ghost predicate ValidSession(ts: seq<Transfer>) {
    && (forall j | 0 <= j < |ts| :: ValidTransfer(ts[j]))
    && (ts != [] ==> FirstArrives(ts[0]) || ts[0].indices == [])
    && forall j | 0 < j < |ts| :: Covered(ts[j - 1], ts[j])
  }

  lemma NothingArrives(s: State, t: Transfer)
    requires t.indices == []
    ensures Delivered(s, Sent(t, t.indices)) == [] && Expected(t) == []
  {
    assert 0 !in t.indices;
  }

  lemma LosslessEnds(s: State, t: Transfer)
    requires ValidTransfer(t) && Multi(t) && FirstArrives(t) && Lossless(t)
    ensures Run(s, Sent(t, t.indices)).total.None?
  {
    LosslessIsGapless(t);
    var _ := TransferRun(s, t, t.indices);
  }

  lemma CoveredDelivers(s: State, a: Transfer, b: Transfer)
    requires ValidTransfer(a) && ValidTransfer(b) && Covered(a, b)
    ensures Delivered(Run(s, Sent(a, a.indices)), Sent(b, b.indices)) == Expected(b)
  {
    if FirstArrives(b) {
      TransferDelivers(Run(s, Sent(a, a.indices)), b);
    } else if b.indices == [] {
      NothingArrives(Run(s, Sent(a, a.indices)), b);
    } else if Lossless(a) {
      LosslessEnds(s, a);
      TransferDeliversFromIdle(Run(s, Sent(a, a.indices)), b);
    } else {
      assert 0 !in b.indices;
      BeheadedDelivers(s, a, b);
    }
  }

  lemma LastDelivers(s: State, ts: seq<Transfer>, front: seq<Transfer>, t: Transfer)
    requires ValidSession(ts) && ts == front + [t]
    ensures Delivered(Run(s, SessionStream(front)), Sent(t, t.indices)) == Expected(t)
  {
    assert t == ts[|front|];
    if front == [] {
      if FirstArrives(t) {
        TransferDelivers(s, t);
      } else {
        NothingArrives(s, t);
      }
    } else {
      var j := |front| - 1;
      assert ts[j] == front[j];
      RunAppend(s, SessionStream(front[..j]), Sent(front[j], front[j].indices));
      CoveredDelivers(Run(s, SessionStream(front[..j])), front[j], t);
    }
  }

  lemma {:induction false} SessionDelivers(s: State, ts: seq<Transfer>)
    requires ValidSession(ts)
    ensures Delivered(s, SessionStream(ts)) == SessionExpected(ts)
    decreases |ts|
  {
    if ts != [] {
      var j := |ts| - 1;
      var front, t := ts[..j], ts[j];
      assert ts == front + [t];
      SessionDelivers(s, front);
      LastDelivers(s, ts, front, t);
      RunAppend(s, SessionStream(front), Sent(t, t.indices));
    }
  }

  /** A frame of the session, or one of somebody else's on the same identifier. */
  datatype Tagged = Own(pdu: Pdu) | Foreign(pdu: Pdu)

  function OwnUnits(stream: seq<Tagged>): seq<Pdu> {
    if stream == [] then []
    else
      var front, last := OwnUnits(stream[..|stream| - 1]), stream[|stream| - 1];
      if last.Own? then front + [last.pdu] else front
  }

  function AllUnits(stream: seq<Tagged>): (pdus: seq<Pdu>)
    ensures |pdus| == |stream|
  {
    if stream == [] then [] else AllUnits(stream[..|stream| - 1]) + [stream[|stream| - 1].pdu]
  }

  /** The payloads handed out at the session's own frames, and at the foreign ones. */
  function DeliveredAt(s: State, stream: seq<Tagged>, own: bool): seq<seq<byte>> {
    if stream == [] then []
    else
      var front, last := stream[..|stream| - 1], stream[|stream| - 1];
      DeliveredAt(s, front, own)
      + if last.Own? == own then Completed(Step(Run(s, AllUnits(front)), last.pdu).1) else []
  }

  function ForeignPayloads(stream: seq<Tagged>): seq<seq<byte>> {
    if stream == [] then []
    else
      var front, last := ForeignPayloads(stream[..|stream| - 1]), stream[|stream| - 1];
      if last.Foreign? && last.pdu.SingleFrame? then front + [last.pdu.payload] else front
  }

  predicate ForeignHarmless(stream: seq<Tagged>) {
    forall j | 0 <= j < |stream| :: stream[j].Foreign? ==> stream[j].pdu.SingleFrame? || stream[j].pdu.FlowControl?
  }

  lemma ForeignStep(s: State, pdu: Pdu)
    requires pdu.SingleFrame? || pdu.FlowControl?
    ensures Step(s, pdu).0 == s
    ensures Completed(Step(s, pdu).1) == if pdu.SingleFrame? then [pdu.payload] else []
  {
  }

  /** Foreign single frames and flow control change nothing for the session's own frames. */
  lemma {:induction false} ForeignInvisible(s: State, stream: seq<Tagged>)
    requires ForeignHarmless(stream)
    ensures Run(s, AllUnits(stream)) == Run(s, OwnUnits(stream))
    ensures DeliveredAt(s, stream, true) == Delivered(s, OwnUnits(stream))
    ensures DeliveredAt(s, stream, false) == ForeignPayloads(stream)
  {
    if stream != [] {
      var front, last := stream[..|stream| - 1], stream[|stream| - 1];
      ForeignInvisible(s, front);
      RunSnoc(s, AllUnits(front), last.pdu);
      if last.Own? {
        RunSnoc(s, OwnUnits(front), last.pdu);
      } else {
        ForeignStep(Run(s, AllUnits(front)), last.pdu);
      }
    }
  }

  /** From any state, a session of transfers in order, with losses, immediate repeats, padding
      and interleaved foreign frames, hands out exactly the payloads that arrived whole, in
      order, and every foreign single frame. */
  lemma SessionIsExact(s: State, ts: seq<Transfer>, stream: seq<Tagged>)
    requires ValidSession(ts)
    requires ForeignHarmless(stream) && OwnUnits(stream) == SessionStream(ts)
    ensures DeliveredAt(s, stream, true) == SessionExpected(ts)
    ensures DeliveredAt(s, stream, false) == ForeignPayloads(stream)
  {
    SessionDelivers(s, ts);
    ForeignInvisible(s, stream);
  }

  /** A transfer of which every unit arrives exactly once. */
  function Whole(payload: seq<byte>, capacity: nat, pad: seq<byte>): Transfer
    requires capacity >= 2
  {
    Transfer(payload, capacity, pad, seq(|Segmentation(payload, capacity)|, i => i))
  }

  lemma LastUnpadded(t: Transfer)
    requires Multi(t) && t.pad == []
    ensures SentUnit(t, LastUnit(t)) == MultiFrameUnit(t.payload, t.capacity, LastUnit(t))
  {
    var n := LastUnit(t);
    if n > 0 {
      assert Block(t.payload, t.capacity, n) + [] == Block(t.payload, t.capacity, n);
    }
  }

  /** Without padding, what is sent of a whole transfer is the segmentation of its payload. */
  lemma WholeIsSegmentation(payload: seq<byte>, capacity: nat)
    requires capacity >= 2
    ensures var t := Whole(payload, capacity, []); Sent(t, t.indices) == Segmentation(payload, capacity)
  {
    var t := Whole(payload, capacity, []);
    var n := LastUnit(t);
    assert |t.indices| == n + 1 && t.indices[..n] == Upto(n) && t.indices[n] == n;
    assert Sent(t, t.indices) == Sent(t, Upto(n)) + [SentUnit(t, n)];
    if Multi(t) {
      SentUpto(t, n);
      LastUnpadded(t);
    } else {
      assert Sent(t, Upto(0)) == [];
    }
  }

  lemma WholeIsValid(payload: seq<byte>, capacity: nat, pad: seq<byte>)
    requires capacity >= 2
    ensures ValidTransfer(Whole(payload, capacity, pad)) && FirstArrives(Whole(payload, capacity, pad))
    ensures Expected(Whole(payload, capacity, pad)) == [payload]
  {
    var t := Whole(payload, capacity, pad);
    forall i | 0 <= i <= LastUnit(t)
      ensures i in t.indices
    {
      assert t.indices[i] == i;
    }
  }

  /** The transfers carry these payloads, and every unit arrives once. */
  predicate AllWhole(ts: seq<Transfer>, payloads: seq<seq<byte>>) {
    && |ts| == |payloads|
    && forall j | 0 <= j < |ts| :: ts[j].capacity >= 2 && ts[j] == Whole(payloads[j], ts[j].capacity, ts[j].pad)
  }

  lemma WholeSession(ts: seq<Transfer>, payloads: seq<seq<byte>>)
    requires AllWhole(ts, payloads)
    ensures ValidSession(ts)
  {
    forall j | 0 <= j < |ts|
      ensures ValidTransfer(ts[j]) && FirstArrives(ts[j])
    {
      WholeIsValid(payloads[j], ts[j].capacity, ts[j].pad);
    }
  }

  lemma {:induction false} WholeExpected(ts: seq<Transfer>, payloads: seq<seq<byte>>)
    requires AllWhole(ts, payloads)
    ensures SessionExpected(ts) == payloads
    decreases |ts|
  {
    if ts != [] {
      var j := |ts| - 1;
      WholeExpected(ts[..j], payloads[..j]);
      WholeIsValid(payloads[j], ts[j].capacity, ts[j].pad);
      FrontLast(payloads);
    }
  }

  /** Back-to-back transfers, padded with any bytes and interleaved with foreign single
      frames and flow control: from any state the session's payloads come out in order. */
  lemma BackToBack(s: State, ts: seq<Transfer>, payloads: seq<seq<byte>>, stream: seq<Tagged>)
    requires AllWhole(ts, payloads)
    requires ForeignHarmless(stream) && OwnUnits(stream) == SessionStream(ts)
    ensures DeliveredAt(s, stream, true) == payloads
  {
    WholeSession(ts, payloads);
    WholeExpected(ts, payloads);
    SessionIsExact(s, ts, stream);
  }
}
