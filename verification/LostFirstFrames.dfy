/** Sessions in which a transfer breaks and any number of transfers then arrive without their
    first frames: when the reassembler can put their frames together to a payload. */
module LostFirstFrames {
  import opened Bits
  import opened Wrappers
  import opened IsoTp
  import opened Channel
  import opened ReorderingChannel
  import opened OrderedChannel

  // ---- choosing frames by number and length only ----

  /** The length of a payload, and of the padding of its last frame. */
  datatype Shape = Shape(len: nat, pad: nat)

  predicate ValidShape(shape: Shape, c: nat) {
    2 <= c <= shape.len && shape.len - LastStart(shape.len, c) + shape.pad <= c - 1
  }

  /** Consecutive frames of one transfer, in order. */
  predicate Rising(indices: seq<nat>, n: nat) {
    && (forall j, k | 0 <= j < k < |indices| :: indices[j] < indices[k])
    && forall j | 0 <= j < |indices| :: 1 <= indices[j] <= n
  }

  /** Their sequence numbers go on, modulo 16, after `start` consecutive frames. */
  predicate Numbered(indices: seq<nat>, start: nat) {
    forall j | 0 <= j < |indices| :: indices[j] % 16 == (start + j + 1) % 16
  }

  /** The bytes that these frames carry. */
  function Carried(shape: Shape, c: nat, indices: seq<nat>): nat
    requires ValidShape(shape, c) && forall j | 0 <= j < |indices| :: indices[j] >= 1
  {
    if indices == [] then 0
    else
      Carried(shape, c, indices[..|indices| - 1]) + UnitSize(shape.len, c, shape.pad, indices[|indices| - 1])
  }

  predicate ValidShapes(shapes: seq<Shape>, c: nat) {
    forall j | 0 <= j < |shapes| :: ValidShape(shapes[j], c)
  }

  function Taken(chosen: seq<seq<nat>>): nat {
    if chosen == [] then 0 else Taken(chosen[..|chosen| - 1]) + |chosen[|chosen| - 1]|
  }

  /** A choice of frames from each transfer, in order, numbered without a gap. */
  predicate Choice(shapes: seq<Shape>, c: nat, chosen: seq<seq<nat>>)
    requires ValidShapes(shapes, c)
  {
    if shapes == [] then chosen == []
    else
      var j := |shapes| - 1;
      && |chosen| == |shapes|
      && Choice(shapes[..j], c, chosen[..j])
      && Rising(chosen[j], ConsecutiveCount(shapes[j].len, c))
      && Numbered(chosen[j], Taken(chosen[..j]))
  }

  function Load(shapes: seq<Shape>, c: nat, chosen: seq<seq<nat>>): nat
    requires ValidShapes(shapes, c) && Choice(shapes, c, chosen)
  {
    if shapes == [] then 0
    else
      var j := |shapes| - 1;
      Load(shapes[..j], c, chosen[..j]) + Carried(shapes[j], c, chosen[j])
  }

  /** Some choice leaves out a frame of the first transfer and yet carries all its bytes. */
  ghost predicate Fillable(shapes: seq<Shape>, c: nat)
    requires shapes != [] && ValidShapes(shapes, c)
  {
    exists chosen: seq<seq<nat>> :: Fills(shapes, c, chosen)
  }

  ghost predicate Fills(shapes: seq<Shape>, c: nat, chosen: seq<seq<nat>>)
    requires shapes != [] && ValidShapes(shapes, c)
  {
    && Choice(shapes, c, chosen)
    && c - 2 + Load(shapes, c, chosen) >= shapes[0].len
    && exists i | 1 <= i <= ConsecutiveCount(shapes[0].len, c) :: i !in chosen[0]
  }

  lemma ChoiceSnoc(shapes: seq<Shape>, c: nat, chosen: seq<seq<nat>>, shape: Shape, picked: seq<nat>)
    requires ValidShapes(shapes, c) && ValidShape(shape, c) && Choice(shapes, c, chosen)
    requires Rising(picked, ConsecutiveCount(shape.len, c)) && Numbered(picked, Taken(chosen))
    ensures ValidShapes(shapes + [shape], c) && Choice(shapes + [shape], c, chosen + [picked])
    ensures Load(shapes + [shape], c, chosen + [picked]) == Load(shapes, c, chosen) + Carried(shape, c, picked)
    ensures Taken(chosen + [picked]) == Taken(chosen) + |picked|
  {
    assert (shapes + [shape])[..|shapes|] == shapes && (chosen + [picked])[..|chosen|] == chosen;
    ChoiceLength(shapes, c, chosen);
  }

  lemma ChoiceLength(shapes: seq<Shape>, c: nat, chosen: seq<seq<nat>>)
    requires ValidShapes(shapes, c) && Choice(shapes, c, chosen)
    ensures |chosen| == |shapes|
  {
  }

  // ---- one frame ----

  /** The reassembler waits for `len` bytes, has taken `count` consecutive frames and holds
      `size` bytes. */
  predicate Filling(s: State, len: nat, count: nat, size: nat) {
    s.total == Some(len) && s.nextSeq == (count + 1) % 16 && |s.buffer| == size < len
  }

  predicate HasShape(t: Transfer, shape: Shape, c: nat) {
    t.capacity == c && |t.payload| == shape.len && |t.pad| == shape.pad
  }

  lemma ShapeFits(t: Transfer, shape: Shape, c: nat)
    requires HasShape(t, shape, c) && ValidShape(shape, c)
    ensures Multi(t) && PadFits(t)
  {
    CountIsLeast(shape.len, c);
    SentSize(t, LastUnit(t));
  }

  lemma TakeUnit(s: State, t: Transfer, shape: Shape, c: nat, x: nat, len: nat, count: nat, size: nat)
    requires HasShape(t, shape, c) && ValidShape(shape, c) && Filling(s, len, count, size)
    requires 1 <= x <= ConsecutiveCount(shape.len, c) && x % 16 == (count + 1) % 16
    ensures var (s', out), more := Step(s, SentUnit(t, x)), size + UnitSize(shape.len, c, shape.pad, x);
            if more < len then Filling(s', len, count + 1, more) && Completed(out) == [] else Completed(out) != []
  {
    SentSize(t, x);
    NextIsModular(count + 1);
  }

  lemma PassUnit(s: State, t: Transfer, shape: Shape, c: nat, x: nat, len: nat, count: nat, size: nat)
    requires HasShape(t, shape, c) && ValidShape(shape, c) && Filling(s, len, count, size)
    requires 1 <= x <= ConsecutiveCount(shape.len, c) && x % 16 != (count + 1) % 16
    ensures Step(s, SentUnit(t, x)).0 == s && Completed(Step(s, SentUnit(t, x)).1) == []
  {
    SentSize(t, x);
  }

  // ---- whatever arrives amounts to a choice ----

  /** What has been chosen so far fills the payload, or the reassembler holds just that. */
  predicate Holding(s: State, delivered: seq<seq<byte>>, len: nat, count: nat, size: nat) {
    size >= len || (Filling(s, len, count, size) && delivered == [])
  }

  lemma PickNext(indices: seq<nat>, start: nat, n: nat, x: nat, count: nat)
    requires Rising(indices, n) && Numbered(indices, start) && 1 <= x <= n
    requires count == start + |indices| && x % 16 == (count + 1) % 16
    requires indices != [] ==> indices[|indices| - 1] <= x
    ensures Rising(indices + [x], n) && Numbered(indices + [x], start)
  {
    if indices != [] {
      var last := indices[|indices| - 1];
      assert last % 16 == count % 16;
      NextDiffers(count);
    }
  }

  lemma CarriedSnoc(shape: Shape, c: nat, indices: seq<nat>, x: nat)
    requires ValidShape(shape, c) && x >= 1 && forall j | 0 <= j < |indices| :: indices[j] >= 1
    ensures Carried(shape, c, indices + [x]) == Carried(shape, c, indices) + UnitSize(shape.len, c, shape.pad, x)
  {
    assert (indices + [x])[..|indices|] == indices;
  }

  /** Frames taken from the arrivals `indices` of one transfer. */
  predicate Picked(picked: seq<nat>, indices: seq<nat>, start: nat, n: nat) {
    && Rising(picked, n) && Numbered(picked, start)
    && (forall j | 0 <= j < |picked| :: picked[j] in indices)
    && (picked != [] ==> picked[|picked| - 1] <= Latest(indices))
  }

  lemma PickedLater(picked: seq<nat>, front: seq<nat>, x: nat, start: nat, n: nat)
    requires Picked(picked, front, start, n) && Latest(front) <= x
    ensures Picked(picked, front + [x], start, n)
  {
    assert forall j | 0 <= j < |front| :: (front + [x])[j] == front[j];
  }

  lemma PickedMore(picked: seq<nat>, front: seq<nat>, x: nat, start: nat, n: nat, count: nat)
    requires Picked(picked, front, start, n) && Latest(front) <= x && 1 <= x <= n
    requires count == start + |picked| && x % 16 == (count + 1) % 16
    ensures Picked(picked + [x], front + [x], start, n)
  {
    PickNext(picked, start, n, x, count);
    PickedLater(picked, front, x, start, n);
    assert (front + [x])[|front|] == x;
  }

  /** The frames that the transfer sends, by number and shape only. */
  predicate Sends(t: Transfer, shape: Shape, c: nat, n: nat) {
    HasShape(t, shape, c) && ValidShape(shape, c) && n == ConsecutiveCount(shape.len, c)
  }

  lemma TakeHolds(s: State, t: Transfer, shape: Shape, c: nat, n: nat, x: nat, len: nat, count: nat, size: nat,
                  more: nat)
    requires Sends(t, shape, c, n) && Filling(s, len, count, size) && 1 <= x <= n && x % 16 == (count + 1) % 16
    requires more == size + UnitSize(shape.len, c, shape.pad, x)
    ensures Holding(Step(s, SentUnit(t, x)).0, Completed(Step(s, SentUnit(t, x)).1), len, count + 1, more)
  {
    TakeUnit(s, t, shape, c, x, len, count, size);
  }

  lemma PassHolds(s: State, t: Transfer, shape: Shape, c: nat, n: nat, x: nat, len: nat, count: nat, size: nat)
    requires Sends(t, shape, c, n) && Filling(s, len, count, size) && 1 <= x <= n && x % 16 != (count + 1) % 16
    ensures Holding(Step(s, SentUnit(t, x)).0, Completed(Step(s, SentUnit(t, x)).1), len, count, size)
  {
    PassUnit(s, t, shape, c, x, len, count, size);
  }

  lemma RunStep(s: State, t: Transfer, front: seq<nat>, x: nat, len: nat, count: nat, size: nat)
    requires Delivered(s, Sent(t, front)) == []
    requires var (s', out) := Step(Run(s, Sent(t, front)), SentUnit(t, x));
             Holding(s', Completed(out), len, count, size)
    ensures Holding(Run(s, Sent(t, front + [x])), Delivered(s, Sent(t, front + [x])), len, count, size)
  {
    SentSnoc(t, front, x);
    RunSnoc(s, Sent(t, front), SentUnit(t, x));
  }

  lemma RunTakes(s: State, t: Transfer, shape: Shape, c: nat, n: nat, front: seq<nat>, x: nat,
                 len: nat, count: nat, held: nat, next: nat, now: nat)
    requires Sends(t, shape, c, n) && 1 <= x <= n && x % 16 == (count + 1) % 16
    requires Filling(Run(s, Sent(t, front)), len, count, held) && Delivered(s, Sent(t, front)) == []
    requires next == count + 1 && now == held + UnitSize(shape.len, c, shape.pad, x)
    ensures Holding(Run(s, Sent(t, front + [x])), Delivered(s, Sent(t, front + [x])), len, next, now)
  {
    TakeHolds(Run(s, Sent(t, front)), t, shape, c, n, x, len, count, held, now);
    RunStep(s, t, front, x, len, next, now);
  }

  lemma ChoosesTake(s: State, t: Transfer, shape: Shape, c: nat, n: nat, front: seq<nat>, x: nat, picked: seq<nat>,
                    len: nat, start: nat, held: nat, taken: nat) returns (more: seq<nat>, count: nat, now: nat)
    requires Sends(t, shape, c, n) && 1 <= x <= n && Latest(front) <= x && Picked(picked, front, start, n)
    requires Filling(Run(s, Sent(t, front)), len, taken, held) && Delivered(s, Sent(t, front)) == []
    requires taken == start + |picked| && x % 16 == (taken + 1) % 16
    ensures Picked(more, front + [x], start, n)
    ensures count == start + |more| && now - held == Carried(shape, c, more) - Carried(shape, c, picked)
    ensures Holding(Run(s, Sent(t, front + [x])), Delivered(s, Sent(t, front + [x])), len, count, now)
  {
    more, count, now := picked + [x], taken + 1, held + UnitSize(shape.len, c, shape.pad, x);
    RunTakes(s, t, shape, c, n, front, x, len, taken, held, count, now);
    PickedMore(picked, front, x, start, n, taken);
    CarriedSnoc(shape, c, picked, x);
  }

  lemma ChoosesPass(s: State, t: Transfer, shape: Shape, c: nat, n: nat, front: seq<nat>, x: nat, picked: seq<nat>,
                    len: nat, start: nat, held: nat, taken: nat) returns (more: seq<nat>, count: nat, now: nat)
    requires Sends(t, shape, c, n) && 1 <= x <= n && Latest(front) <= x && Picked(picked, front, start, n)
    requires Filling(Run(s, Sent(t, front)), len, taken, held) && Delivered(s, Sent(t, front)) == []
    requires taken == start + |picked| && x % 16 != (taken + 1) % 16
    ensures Picked(more, front + [x], start, n)
    ensures count == start + |more| && now - held == Carried(shape, c, more) - Carried(shape, c, picked)
    ensures Holding(Run(s, Sent(t, front + [x])), Delivered(s, Sent(t, front + [x])), len, count, now)
  {
    more, count, now := picked, taken, held;
    var before := Run(s, Sent(t, front));
    PassHolds(before, t, shape, c, n, x, len, count, held);
    RunStep(s, t, front, x, len, count, held);
    PickedLater(picked, front, x, start, n);
  }

  lemma ChoosesNext(s: State, t: Transfer, shape: Shape, c: nat, n: nat, front: seq<nat>, x: nat, picked: seq<nat>,
                    len: nat, start: nat, held: nat, taken: nat) returns (more: seq<nat>, count: nat, now: nat)
    requires Sends(t, shape, c, n) && 1 <= x <= n && Latest(front) <= x && Picked(picked, front, start, n)
    requires Filling(Run(s, Sent(t, front)), len, taken, held) && Delivered(s, Sent(t, front)) == []
    requires taken == start + |picked|
    ensures Picked(more, front + [x], start, n)
    ensures count == start + |more| && now - held == Carried(shape, c, more) - Carried(shape, c, picked)
    ensures Holding(Run(s, Sent(t, front + [x])), Delivered(s, Sent(t, front + [x])), len, count, now)
  {
    if x % 16 == (taken + 1) % 16 {
      more, count, now := ChoosesTake(s, t, shape, c, n, front, x, picked, len, start, held, taken);
    } else {
      more, count, now := ChoosesPass(s, t, shape, c, n, front, x, picked, len, start, held, taken);
    }
  }

  lemma {:induction false} Chooses(s: State, t: Transfer, shape: Shape, c: nat, n: nat, indices: seq<nat>,
                                   len: nat, start: nat, size: nat)
    returns (picked: seq<nat>, count: nat, now: nat)
    requires Sends(t, shape, c, n) && Filling(s, len, start, size) && Following(indices, n)
    ensures Picked(picked, indices, start, n)
    ensures count == start + |picked| && now == size + Carried(shape, c, picked)
    ensures Holding(Run(s, Sent(t, indices)), Delivered(s, Sent(t, indices)), len, count, now)
    decreases |indices|
  {
    if indices == [] {
      picked, count, now := [], start, size;
    } else {
      var front, x := FollowingSnoc(indices, n);
      picked, count, now := Chooses(s, t, shape, c, n, front, len, start, size);
      if now >= len {
        PickedLater(picked, front, x, start, n);
      } else {
        picked, count, now := ChoosesNext(s, t, shape, c, n, front, x, picked, len, start, now, count);
      }
    }
  }

  // ---- the first transfer ----

  lemma {:induction false} SentAppend(t: Transfer, a: seq<nat>, b: seq<nat>)
    ensures Sent(t, a + b) == Sent(t, a) + Sent(t, b)
    decreases |b|
  {
    if b == [] {
      assert a + b == a;
    } else {
      var j := |b| - 1;
      var front, x := b[..j], b[j];
      SentAppend(t, a, front);
      SentSnoc(t, a + front, x);
      FrontLast(b);
      assert a + b == (a + front) + [x];
    }
  }

  lemma {:induction false} LeadingZeros(indices: seq<nat>, n: nat) returns (k: nat)
    requires Ordered(indices) && InRange(indices, n + 1) && indices != [] && indices[0] == 0
    ensures 1 <= k <= |indices|
    ensures (forall j | 0 <= j < k :: indices[j] == 0) && Following(indices[k..], n)
    decreases |indices|
  {
    k := |indices|;
    while k > 1 && indices[k - 1] > 0
      invariant 1 <= k <= |indices| && forall j | k <= j < |indices| :: indices[j] > 0
    {
      k := k - 1;
    }
  }

  lemma {:induction false} ZerosStart(s: State, t: Transfer, zeros: seq<nat>)
    requires Multi(t) && zeros != [] && forall j | 0 <= j < |zeros| :: zeros[j] == 0
    ensures Filling(Run(s, Sent(t, zeros)), |t.payload|, 0, t.capacity - 2) && Delivered(s, Sent(t, zeros)) == []
    decreases |zeros|
  {
    var j := |zeros| - 1;
    var front := zeros[..j];
    FrontLast(zeros);
    SentSnoc(t, front, 0);
    RunSnoc(s, Sent(t, front), SentUnit(t, 0));
    StartTransfer(Run(s, Sent(t, front)), t.payload, t.capacity);
    if front != [] {
      ZerosStart(s, t, front);
    }
  }

  /** A transfer that begins leaves the reassembler with its first frame only, and then come
      consecutive frames. */
  lemma Begins(s: State, t: Transfer) returns (zeros: seq<nat>, rest: seq<nat>)
    requires Broken(t)
    ensures t.indices == zeros + rest && Following(rest, LastUnit(t))
    ensures Filling(Run(s, Sent(t, zeros)), |t.payload|, 0, t.capacity - 2) && Delivered(s, Sent(t, zeros)) == []
  {
    var k := LeadingZeros(t.indices, LastUnit(t));
    zeros, rest := t.indices[..k], t.indices[k..];
    ZerosStart(s, t, zeros);
  }

  lemma RunParts(s: State, t: Transfer, a: seq<nat>, b: seq<nat>)
    requires Delivered(s, Sent(t, a)) == []
    ensures Run(s, Sent(t, a + b)) == Run(Run(s, Sent(t, a)), Sent(t, b))
    ensures Delivered(s, Sent(t, a + b)) == Delivered(Run(s, Sent(t, a)), Sent(t, b))
  {
    SentAppend(t, a, b);
    RunAppend(s, Sent(t, a), Sent(t, b));
  }

  lemma InAppend(picked: seq<nat>, a: seq<nat>, b: seq<nat>)
    requires forall j | 0 <= j < |picked| :: picked[j] in b
    ensures forall j | 0 <= j < |picked| :: picked[j] in a + b
  {
  }

  lemma ChoosesFirst(s: State, t: Transfer, shape: Shape, c: nat, n: nat)
    returns (picked: seq<nat>, count: nat, now: nat)
    requires Sends(t, shape, c, n) && Broken(t)
    ensures Rising(picked, n) && Numbered(picked, 0) && forall j | 0 <= j < |picked| :: picked[j] in t.indices
    ensures count == |picked| && now == c - 2 + Carried(shape, c, picked)
    ensures Holding(Run(s, Sent(t, t.indices)), Delivered(s, Sent(t, t.indices)), shape.len, count, now)
  {
    var zeros, rest := Begins(s, t);
    var begun := Run(s, Sent(t, zeros));
    picked, count, now := Chooses(begun, t, shape, c, n, rest, shape.len, 0, c - 2);
    RunParts(s, t, zeros, rest);
    InAppend(picked, zeros, rest);
  }

  // ---- sessions ----

  /** A broken transfer and then transfers without their first frames, of the given shapes. */
  predicate Headless(ts: seq<Transfer>, shapes: seq<Shape>, c: nat) {
    && |ts| == |shapes|
    && (forall j | 0 <= j < |ts| :: HasShape(ts[j], shapes[j], c))
    && (ts != [] ==> Broken(ts[0]))
    && forall j | 1 <= j < |ts| :: Beheaded(ts[j])
  }

  lemma BeheadedFollows(t: Transfer)
    requires Beheaded(t)
    ensures Following(t.indices, LastUnit(t))
  {
    forall j | 0 <= j < |t.indices|
      ensures 1 <= t.indices[j] <= LastUnit(t)
    {
      assert t.indices[j] in t.indices;
    }
  }

  lemma SessionSnoc(s: State, front: seq<Transfer>, t: Transfer)
    ensures Run(s, SessionStream(front + [t])) == Run(Run(s, SessionStream(front)), Sent(t, t.indices))
    ensures Delivered(s, SessionStream(front + [t]))
         == Delivered(s, SessionStream(front)) + Delivered(Run(s, SessionStream(front)), Sent(t, t.indices))
  {
    assert (front + [t])[..|front|] == front;
    RunAppend(s, SessionStream(front), Sent(t, t.indices));
  }

  lemma HeadlessFront(ts: seq<Transfer>, shapes: seq<Shape>, c: nat)
    requires Headless(ts, shapes, c) && ValidShapes(shapes, c) && |ts| > 1
    ensures var j := |ts| - 1;
            && Headless(ts[..j], shapes[..j], c) && ValidShapes(shapes[..j], c)
            && Beheaded(ts[j]) && Sends(ts[j], shapes[j], c, LastUnit(ts[j]))
  {
  }

  /** The frames that the reassembler takes from a session are a choice. */
  predicate SessionHolds(s: State, ts: seq<Transfer>, len: nat, shapes: seq<Shape>, c: nat, chosen: seq<seq<nat>>)
    requires ValidShapes(shapes, c) && Choice(shapes, c, chosen) && c >= 2
  {
    Holding(Run(s, SessionStream(ts)), Delivered(s, SessionStream(ts)), len, Taken(chosen),
            c - 2 + Load(shapes, c, chosen))
  }

  lemma OneChoice(shape: Shape, c: nat, picked: seq<nat>)
    requires ValidShape(shape, c) && Rising(picked, ConsecutiveCount(shape.len, c)) && Numbered(picked, 0)
    ensures ValidShapes([shape], c) && Choice([shape], c, [picked])
    ensures Load([shape], c, [picked]) == Carried(shape, c, picked) && Taken([picked]) == |picked|
  {
    assert [] + [shape] == [shape] && [] + [picked] == [picked];
    ChoiceSnoc([], c, [], shape, picked);
  }

  lemma FirstHolds(s: State, t: Transfer, shape: Shape, c: nat) returns (picked: seq<nat>)
    requires HasShape(t, shape, c) && ValidShape(shape, c) && Broken(t)
    ensures ValidShapes([shape], c) && Choice([shape], c, [picked])
    ensures forall j | 0 <= j < |picked| :: picked[j] in t.indices
    ensures SessionHolds(s, [t], shape.len, [shape], c, [picked])
  {
    var count, now;
    picked, count, now := ChoosesFirst(s, t, shape, c, LastUnit(t));
    OneChoice(shape, c, picked);
    assert [] + [t] == [t];
    SessionSnoc(s, [], t);
  }

  lemma ContinuesHolding(s: State, front: seq<Transfer>, t: Transfer, shape: Shape, c: nat,
                         len: nat, start: nat, size: nat)
    returns (picked: seq<nat>, count: nat, now: nat)
    requires HasShape(t, shape, c) && ValidShape(shape, c) && Beheaded(t)
    requires Holding(Run(s, SessionStream(front)), Delivered(s, SessionStream(front)), len, start, size)
    ensures Rising(picked, ConsecutiveCount(shape.len, c)) && Numbered(picked, start)
    ensures count == start + |picked| && now == size + Carried(shape, c, picked)
    ensures Holding(Run(s, SessionStream(front + [t])), Delivered(s, SessionStream(front + [t])), len, count, now)
  {
    if size >= len {
      picked, count, now := [], start, size;
    } else {
      var n, before := LastUnit(t), Run(s, SessionStream(front));
      BeheadedFollows(t);
      picked, count, now := Chooses(before, t, shape, c, n, t.indices, len, start, size);
      SessionSnoc(s, front, t);
    }
  }

  lemma NextHolds(s: State, front: seq<Transfer>, t: Transfer, shapes: seq<Shape>, shape: Shape, c: nat,
                  chosen: seq<seq<nat>>, len: nat) returns (picked: seq<nat>)
    requires ValidShapes(shapes, c) && ValidShape(shape, c) && Choice(shapes, c, chosen)
    requires HasShape(t, shape, c) && Beheaded(t)
    requires SessionHolds(s, front, len, shapes, c, chosen)
    ensures ValidShapes(shapes + [shape], c) && Choice(shapes + [shape], c, chosen + [picked])
    ensures SessionHolds(s, front + [t], len, shapes + [shape], c, chosen + [picked])
  {
    var size, start := c - 2 + Load(shapes, c, chosen), Taken(chosen);
    var count, now;
    picked, count, now := ContinuesHolding(s, front, t, shape, c, len, start, size);
    ChoiceSnoc(shapes, c, chosen, shape, picked);
    assert count == Taken(chosen + [picked]) && now == c - 2 + Load(shapes + [shape], c, chosen + [picked]);
  }

  lemma {:induction false} SessionChooses(s: State, ts: seq<Transfer>, shapes: seq<Shape>, c: nat)
    returns (chosen: seq<seq<nat>>)
    requires Headless(ts, shapes, c) && ValidShapes(shapes, c) && ts != []
    ensures Choice(shapes, c, chosen) && chosen != [] && SessionHolds(s, ts, shapes[0].len, shapes, c, chosen)
    ensures forall j | 0 <= j < |chosen[0]| :: chosen[0][j] in ts[0].indices
    decreases |ts|
  {
    FrontLast(ts);
    FrontLast(shapes);
    var j := |ts| - 1;
    if j == 0 {
      var picked := FirstHolds(s, ts[0], shapes[0], c);
      chosen := [picked];
    } else {
      HeadlessFront(ts, shapes, c);
      var front := SessionChooses(s, ts[..j], shapes[..j], c);
      var picked := NextHolds(s, ts[..j], ts[j], shapes[..j], shapes[j], c, front, shapes[0].len);
      chosen := front + [picked];
    }
  }

  // ---- every choice can arrive ----

  /** A payload came out, or the reassembler holds what arrived. */
  predicate Arrived(s: State, delivered: seq<seq<byte>>, len: nat, count: nat, size: nat) {
    delivered != [] || Filling(s, len, count, size)
  }

  lemma TakenOrDone(s: State, t: Transfer, shape: Shape, c: nat, front: seq<nat>, x: nat,
                    len: nat, count: nat, size: nat, next: nat, more: nat)
    requires HasShape(t, shape, c) && ValidShape(shape, c) && 1 <= x <= ConsecutiveCount(shape.len, c)
    requires Arrived(Run(s, Sent(t, front)), Delivered(s, Sent(t, front)), len, count, size)
    requires x % 16 == (count + 1) % 16
    requires next == count + 1 && more == size + UnitSize(shape.len, c, shape.pad, x)
    ensures Arrived(Run(s, Sent(t, front + [x])), Delivered(s, Sent(t, front + [x])), len, next, more)
  {
    SentSnoc(t, front, x);
    RunSnoc(s, Sent(t, front), SentUnit(t, x));
    if Delivered(s, Sent(t, front)) == [] {
      TakeUnit(Run(s, Sent(t, front)), t, shape, c, x, len, count, size);
    }
  }

  lemma NumberedFront(indices: seq<nat>, n: nat, start: nat) returns (front: seq<nat>, x: nat)
    requires Rising(indices, n) && Numbered(indices, start) && indices != []
    ensures indices == front + [x] && Rising(front, n) && Numbered(front, start)
    ensures 1 <= x <= n && x % 16 == (start + |front| + 1) % 16
  {
    var j := |indices| - 1;
    front, x := indices[..j], indices[j];
  }

  lemma {:induction false} TakesAll(s: State, t: Transfer, shape: Shape, c: nat, n: nat, indices: seq<nat>,
                                    len: nat, start: nat, size: nat) returns (count: nat, now: nat)
    requires Sends(t, shape, c, n) && Filling(s, len, start, size)
    requires Rising(indices, n) && Numbered(indices, start)
    ensures count == start + |indices| && now == size + Carried(shape, c, indices)
    ensures Arrived(Run(s, Sent(t, indices)), Delivered(s, Sent(t, indices)), len, count, now)
    decreases |indices|
  {
    if indices == [] {
      count, now := start, size;
    } else {
      var front, x := NumberedFront(indices, n, start);
      var before, held := TakesAll(s, t, shape, c, n, front, len, start, size);
      count, now := before + 1, held + UnitSize(shape.len, c, shape.pad, x);
      CarriedSnoc(shape, c, front, x);
      TakenOrDone(s, t, shape, c, front, x, len, before, held, count, now);
    }
  }

  /** A transfer of a shape of which just these units arrive. */
  function Arriving(shape: Shape, c: nat, indices: seq<nat>): (t: Transfer)
    ensures HasShape(t, shape, c) && t.indices == indices
  {
    Transfer(seq(shape.len, _ => 0), c, seq(shape.pad, _ => 0), indices)
  }

  lemma ArrivingBeheaded(shape: Shape, c: nat, indices: seq<nat>, n: nat)
    requires ValidShape(shape, c) && n == ConsecutiveCount(shape.len, c) && Rising(indices, n)
    ensures Beheaded(Arriving(shape, c, indices))
  {
    ShapeFits(Arriving(shape, c, indices), shape, c);
  }

  lemma ArrivingBroken(shape: Shape, c: nat, indices: seq<nat>, n: nat, i: nat)
    requires ValidShape(shape, c) && n == ConsecutiveCount(shape.len, c) && Rising(indices, n)
    requires 1 <= i <= n && i !in indices
    ensures Broken(Arriving(shape, c, [0] + indices))
  {
    ShapeFits(Arriving(shape, c, [0] + indices), shape, c);
    assert i !in [0] + indices;
  }

  lemma FirstTakes(s: State, t: Transfer, shape: Shape, c: nat, n: nat, indices: seq<nat>)
    returns (count: nat, now: nat)
    requires Sends(t, shape, c, n) && t.indices == [0] + indices
    requires Rising(indices, n) && Numbered(indices, 0)
    ensures count == |indices| && now == c - 2 + Carried(shape, c, indices)
    ensures Arrived(Run(s, Sent(t, t.indices)), Delivered(s, Sent(t, t.indices)), shape.len, count, now)
  {
    ZerosStart(s, t, [0]);
    count, now := TakesAll(Run(s, Sent(t, [0])), t, shape, c, n, indices, shape.len, 0, c - 2);
    RunParts(s, t, [0], indices);
  }

  lemma NextTakes(s: State, front: seq<Transfer>, t: Transfer, shape: Shape, c: nat, n: nat,
                  len: nat, start: nat, size: nat) returns (count: nat, now: nat)
    requires Sends(t, shape, c, n) && Rising(t.indices, n) && Numbered(t.indices, start)
    requires Arrived(Run(s, SessionStream(front)), Delivered(s, SessionStream(front)), len, start, size)
    ensures count == start + |t.indices| && now == size + Carried(shape, c, t.indices)
    ensures Arrived(Run(s, SessionStream(front + [t])), Delivered(s, SessionStream(front + [t])), len, count, now)
  {
    var before, indices := Run(s, SessionStream(front)), t.indices;
    if Delivered(s, SessionStream(front)) == [] {
      count, now := TakesAll(before, t, shape, c, n, indices, len, start, size);
    } else {
      count, now := start + |indices|, size + Carried(shape, c, indices);
    }
    SessionSnoc(s, front, t);
  }

  lemma OneTakes(s: State, shape: Shape, c: nat, picked: seq<nat>, i: nat)
    returns (t: Transfer, count: nat, now: nat)
    requires ValidShape(shape, c) && Choice([shape], c, [picked])
    requires 1 <= i <= ConsecutiveCount(shape.len, c) && i !in picked
    ensures HasShape(t, shape, c) && Broken(t)
    ensures count == |picked| && now == c - 2 + Carried(shape, c, picked)
    ensures Arrived(Run(s, SessionStream([t])), Delivered(s, SessionStream([t])), shape.len, count, now)
  {
    var n := ConsecutiveCount(shape.len, c);
    assert [picked][..0] == [] && [picked][0] == picked;
    ArrivingBroken(shape, c, picked, n, i);
    t := Arriving(shape, c, [0] + picked);
    count, now := FirstTakes(s, t, shape, c, n, picked);
    SessionSnoc(s, [], t);
    assert [] + [t] == [t];
  }

  lemma HeadlessSnoc(ts: seq<Transfer>, shapes: seq<Shape>, c: nat, t: Transfer, shape: Shape)
    requires ts != [] && Headless(ts, shapes, c) && HasShape(t, shape, c) && Beheaded(t)
    ensures Headless(ts + [t], shapes + [shape], c)
  {
  }

  lemma ChoiceFront(shapes: seq<Shape>, c: nat, chosen: seq<seq<nat>>)
    requires ValidShapes(shapes, c) && shapes != [] && Choice(shapes, c, chosen)
    ensures var j := |shapes| - 1;
            && |chosen| == |shapes| && Choice(shapes[..j], c, chosen[..j])
            && Rising(chosen[j], ConsecutiveCount(shapes[j].len, c)) && Numbered(chosen[j], Taken(chosen[..j]))
            && Load(shapes, c, chosen) == Load(shapes[..j], c, chosen[..j]) + Carried(shapes[j], c, chosen[j])
            && Taken(chosen) == Taken(chosen[..j]) + |chosen[j]|
  {
  }

  lemma {:induction false} SessionTakes(s: State, shapes: seq<Shape>, c: nat, chosen: seq<seq<nat>>, i: nat)
    returns (ts: seq<Transfer>, count: nat, now: nat)
    requires ValidShapes(shapes, c) && shapes != [] && Choice(shapes, c, chosen) && |chosen| == |shapes|
    requires 1 <= i <= ConsecutiveCount(shapes[0].len, c) && i !in chosen[0]
    ensures Headless(ts, shapes, c) && count == Taken(chosen) && now == c - 2 + Load(shapes, c, chosen)
    ensures Arrived(Run(s, SessionStream(ts)), Delivered(s, SessionStream(ts)), shapes[0].len, count, now)
    decreases |shapes|
  {
    var j := |shapes| - 1;
    var shape, picked := shapes[j], chosen[j];
    ChoiceFront(shapes, c, chosen);
    FrontLast(shapes);
    FrontLast(chosen);
    var t;
    if j == 0 {
      assert shapes == [shape] && chosen == [picked];
      t, count, now := OneTakes(s, shape, c, picked, i);
      OneChoice(shape, c, picked);
      ts := [t];
    } else {
      t := Arriving(shape, c, picked);
      ArrivingBeheaded(shape, c, picked, ConsecutiveCount(shape.len, c));
      ts, count, now := SessionTakes(s, shapes[..j], c, chosen[..j], i);
      HeadlessSnoc(ts, shapes[..j], c, t, shape);
      count, now := NextTakes(s, ts, t, shape, c, ConsecutiveCount(shape.len, c), shapes[0].len, count, now);
      ts := ts + [t];
    }
  }

  /** Nothing ever completes in such a session, whatever the payloads and the arrivals. */
  ghost predicate NeverCompletes(shapes: seq<Shape>, c: nat) {
    forall s: State, ts: seq<Transfer> | Headless(ts, shapes, c) :: Delivered(s, SessionStream(ts)) == []
  }

  lemma LostUnit(t: Transfer) returns (i: nat)
    requires Broken(t)
    ensures 1 <= i <= LastUnit(t) && i !in t.indices
  {
    i :| 0 <= i <= LastUnit(t) && i !in t.indices;
    assert t.indices[0] in t.indices;
  }

  lemma HoldsUnfilled(s: State, ts: seq<Transfer>, shapes: seq<Shape>, c: nat)
    requires Headless(ts, shapes, c) && ValidShapes(shapes, c) && ts != [] && !Fillable(shapes, c)
    ensures Delivered(s, SessionStream(ts)) == []
  {
    var chosen := SessionChooses(s, ts, shapes, c);
    var i := LostUnit(ts[0]);
    assert i !in chosen[0];
    assert !Fills(shapes, c, chosen);
  }

  /** A broken transfer followed by any number of transfers without their first frames: nothing
      ever completes exactly when no choice of frames fills the first payload. */
  lemma LostFirstFramesIff(shapes: seq<Shape>, c: nat)
    requires shapes != [] && ValidShapes(shapes, c)
    ensures NeverCompletes(shapes, c) <==> !Fillable(shapes, c)
  {
    if Fillable(shapes, c) {
      var chosen: seq<seq<nat>> :| Fills(shapes, c, chosen);
      var i :| 1 <= i <= ConsecutiveCount(shapes[0].len, c) && i !in chosen[0];
      ChoiceLength(shapes, c, chosen);
      var s := State(None, 0, []);
      var ts, count, now := SessionTakes(s, shapes, c, chosen, i);
      assert Delivered(s, SessionStream(ts)) != [];
    } else {
      forall s: State, ts: seq<Transfer> | Headless(ts, shapes, c)
        ensures Delivered(s, SessionStream(ts)) == []
      {
        HoldsUnfilled(s, ts, shapes, c);
      }
    }
  }

  // ---- two at a time is not enough ----

  function FirstUnits(k: nat): (indices: seq<nat>)
    ensures |indices| == k && forall j | 0 <= j < k :: indices[j] == j + 1
  {
    seq(k, j => j + 1)
  }

  lemma {:induction false} CarriedPrefix(shape: Shape, c: nat, k: nat)
    requires ValidShape(shape, c) && k < ConsecutiveCount(shape.len, c)
    ensures c - 2 + Carried(shape, c, FirstUnits(k)) == End(c, k)
    decreases k
  {
    if k > 0 {
      var j := k - 1;
      CarriedPrefix(shape, c, j);
      assert FirstUnits(k) == FirstUnits(j) + [k];
      CarriedSnoc(shape, c, FirstUnits(j), k);
      CountIsLeast(shape.len, c);
      EndMonotone(c, k, ConsecutiveCount(shape.len, c) - 1);
      EndMonotone(c, j, k);
    }
  }

  lemma CountOf(len: nat, c: nat, n: nat, start: nat)
    requires 2 <= c <= len && n >= 1 && start == (c - 2) + (n - 1) * (c - 1) && start < len <= start + (c - 1)
    ensures ConsecutiveCount(len, c) == n && LastStart(len, c) == start == End(c, n - 1)
  {
    EndIsLinear(c, n - 1);
    CountUnique(len, c, n);
  }

  lemma LastSize(len: nat, c: nat, n: nat, start: nat)
    requires 2 <= c <= len && n == ConsecutiveCount(len, c) && start == LastStart(len, c)
    ensures n >= 1 && UnitSize(len, c, 0, n) == len - start
  {
    CountIsLeast(len, c);
  }

  lemma ThreeShapes(a: Shape, b: Shape, d: Shape)
    requires a == Shape(118, 0) && b == Shape(112, 0) && d == Shape(13, 0)
    ensures ValidShape(a, 8) && ValidShape(b, 8) && ValidShape(d, 8)
    ensures ConsecutiveCount(118, 8) == 16 && ConsecutiveCount(112, 8) == 16 && ConsecutiveCount(13, 8) == 1
    ensures End(8, 15) == 111 == LastStart(118, 8)
    ensures UnitSize(112, 8, 0, 16) == 1 && UnitSize(13, 8, 0, 1) == 7
  {
    CountOf(118, 8, 16, 111);
    CountOf(112, 8, 16, 111);
    CountOf(13, 8, 1, 6);
    LastSize(112, 8, 16, 111);
    LastSize(13, 8, 1, 6);
  }

  lemma OneCarried(shape: Shape, c: nat, i: nat)
    requires ValidShape(shape, c) && i >= 1
    ensures Carried(shape, c, [i]) == UnitSize(shape.len, c, shape.pad, i)
  {
    assert [] + [i] == [i];
    CarriedSnoc(shape, c, [], i);
  }

  lemma TogetherFill(a: Shape, b: Shape, d: Shape)
    requires a == Shape(118, 0) && b == Shape(112, 0) && d == Shape(13, 0)
    ensures ValidShapes([a, b, d], 8) && Fillable([a, b, d], 8)
  {
    ThreeShapes(a, b, d);
    var first := FirstUnits(15);
    CarriedPrefix(a, 8, 15);
    OneCarried(b, 8, 16);
    OneCarried(d, 8, 1);
    OneChoice(a, 8, first);
    ChoiceSnoc([a], 8, [first], b, [16]);
    assert [a] + [b] == [a, b] && [first] + [[16]] == [first, [16]];
    ChoiceSnoc([a, b], 8, [first, [16]], d, [1]);
    assert [a, b] + [d] == [a, b, d] && [first, [16]] + [[1]] == [first, [16], [1]];
    assert 16 !in first;
    assert Fills([a, b, d], 8, [first, [16], [1]]);
  }

  /** Neither of two transfers can be spliced with a broken one, but both together fill it:
      its units 1 to 15, then unit 16 of the second with one byte, then unit 1 of the third. */
  lemma PairsDoNotDecide(a: Shape, b: Shape, d: Shape)
    requires a == Shape(118, 0) && b == Shape(112, 0) && d == Shape(13, 0)
    ensures ValidShapes([a, b, d], 8) && Fillable([a, b, d], 8)
    ensures !Spliceable(118, 112, 8, 0) && !Spliceable(118, 13, 8, 0)
  {
    TogetherFill(a, b, d);
    ThreeShapes(a, b, d);
  }

  // ---- sessions of any length ----

  function ShapesOf(ts: seq<Transfer>): (shapes: seq<Shape>)
    ensures |shapes| == |ts|
  {
    seq(|ts|, j requires 0 <= j < |ts| => Shape(|ts[j].payload|, |ts[j].pad|))
  }

  lemma FittingShape(t: Transfer)
    requires Multi(t) && PadFits(t)
    ensures ValidShape(Shape(|t.payload|, |t.pad|), t.capacity)
  {
    CountIsLeast(|t.payload|, t.capacity);
    SentSize(t, LastUnit(t));
  }

  /** Transfers without their first frames, one after another. */
  predicate AllBeheaded(ts: seq<Transfer>, c: nat) {
    forall j | 0 <= j < |ts| :: Beheaded(ts[j]) && ts[j].capacity == c
  }

  /** A transfer that begins, and then any number that do not. */
  predicate Group(g: seq<Transfer>) {
    && g != []
    && ValidTransfer(g[0]) && FirstArrives(g[0])
    && (|g| > 1 ==> Multi(g[0]) && AllBeheaded(g[1..], g[0].capacity))
  }

  lemma BrokenGroup(g: seq<Transfer>)
    requires Group(g) && Broken(g[0])
    ensures Headless(g, ShapesOf(g), g[0].capacity) && ValidShapes(ShapesOf(g), g[0].capacity)
  {
    forall j | 0 <= j < |g|
      ensures g[j].capacity == g[0].capacity && ValidShape(ShapesOf(g)[j], g[0].capacity)
      ensures j > 0 ==> Beheaded(g[j])
    {
      assert j > 0 ==> g[j] == g[1..][j - 1];
      assert Beheaded(g[j]) ==> !Lossless(g[j]) by {
        assert Lossless(g[j]) ==> 0 in g[j].indices;
      }
      FittingShape(g[j]);
    }
  }

  /** Nothing but its own payload can come out of the group. */
  ghost predicate Unmixed(g: seq<Transfer>) {
    Group(g) && (Broken(g[0]) ==> (BrokenGroup(g); !Fillable(ShapesOf(g), g[0].capacity)))
  }

  lemma {:induction false} IdleBeheaded(s: State, ts: seq<Transfer>, c: nat)
    requires s.total.None? && AllBeheaded(ts, c)
    ensures Run(s, SessionStream(ts)) == s && Delivered(s, SessionStream(ts)) == []
    decreases |ts|
  {
    if ts != [] {
      var j := |ts| - 1;
      var front, t := ts[..j], ts[j];
      FrontLast(ts);
      IdleBeheaded(s, front, c);
      SessionSnoc(s, front, t);
      BeheadedFollows(t);
      SentConsecutive(t, t.indices);
      RunIdle(s, Sent(t, t.indices));
    }
  }

  lemma StreamSnoc(front: seq<Transfer>, t: Transfer)
    ensures SessionStream(front + [t]) == SessionStream(front) + Sent(t, t.indices)
  {
    assert (front + [t])[..|front|] == front;
  }

  lemma StreamConsSnoc(t: Transfer, front: seq<Transfer>, last: Transfer)
    requires SessionStream([t] + front) == Sent(t, t.indices) + SessionStream(front)
    ensures SessionStream([t] + (front + [last])) == Sent(t, t.indices) + SessionStream(front + [last])
  {
    JoinAssoc([t], front, [last]);
    StreamSnoc([t] + front, last);
    StreamSnoc(front, last);
    JoinAssoc(Sent(t, t.indices), SessionStream(front), Sent(last, last.indices));
  }

  lemma StreamOne(t: Transfer)
    ensures SessionStream([t] + []) == Sent(t, t.indices) + SessionStream([])
  {
    assert [t] + [] == [] + [t];
    StreamSnoc([], t);
  }

  lemma {:induction false} StreamCons(t: Transfer, rest: seq<Transfer>)
    ensures SessionStream([t] + rest) == Sent(t, t.indices) + SessionStream(rest)
    decreases |rest|
  {
    if rest == [] {
      StreamOne(t);
    } else {
      var j := |rest| - 1;
      var front, last := rest[..j], rest[j];
      StreamCons(t, front);
      StreamConsSnoc(t, front, last);
      FrontLast(rest);
    }
  }

  /** From any state an unmixed group delivers what its first transfer should. */
  lemma GroupDelivers(s: State, g: seq<Transfer>)
    requires Unmixed(g)
    ensures Delivered(s, SessionStream(g)) == GroupExpected(g)
  {
    if Broken(g[0]) {
      BrokenGroup(g);
      HoldsUnfilled(s, g, ShapesOf(g), g[0].capacity);
    } else {
      assert g == [g[0]] + g[1..];
      StreamCons(g[0], g[1..]);
      RunAppend(s, Sent(g[0], g[0].indices), SessionStream(g[1..]));
      TransferDelivers(s, g[0]);
      if |g| > 1 {
        LosslessEnds(s, g[0]);
        IdleBeheaded(Run(s, Sent(g[0], g[0].indices)), g[1..], g[0].capacity);
      } else {
        assert g[1..] == [];
      }
    }
  }

  function GroupsStream(groups: seq<seq<Transfer>>): seq<Pdu> {
    if groups == [] then []
    else GroupsStream(groups[..|groups| - 1]) + SessionStream(groups[|groups| - 1])
  }

  /** Only the first transfer of a group can arrive whole. */
  function GroupExpected(g: seq<Transfer>): seq<seq<byte>> {
    if g == [] then [] else Expected(g[0])
  }

  function GroupsExpected(groups: seq<seq<Transfer>>): seq<seq<byte>> {
    if groups == [] then []
    else GroupsExpected(groups[..|groups| - 1]) + GroupExpected(groups[|groups| - 1])
  }

  /** From any state, a session of unmixed groups delivers exactly the payloads that arrived
      whole, in order, however many first frames are lost. */
  lemma {:induction false} GroupsDeliver(s: State, groups: seq<seq<Transfer>>)
    requires forall j | 0 <= j < |groups| :: Unmixed(groups[j])
    ensures Delivered(s, GroupsStream(groups)) == GroupsExpected(groups)
    decreases |groups|
  {
    if groups != [] {
      var j := |groups| - 1;
      var front, g := groups[..j], groups[j];
      GroupsDeliver(s, front);
      GroupDelivers(Run(s, GroupsStream(front)), g);
      RunAppend(s, GroupsStream(front), SessionStream(g));
    }
  }
}
