/**
 * What the receive queue makes of the traffic, in every interleaving: which frames it takes in, and that either
 * side gets through with its work.
 */
module FrameDelivery {
  import opened Words
  import opened FrameQueue

  // ------------------------------------------------------------ the filter

  /** A frame the adapter can hold: data present, at most eight bytes of it, a standard identifier. */
  predicate WellFormed(id: u32, data: Option<seq<byte>>) {
    data.Some? && |data.value| <= 8 && id <= 0x7FF
  }

  predicate Ours(cfg: Config, id: u32) {
    cfg.ids.None? || id == cfg.ids.value.0 || id == cfg.ids.value.1
  }

  /** The messages the controller offered to an idle producer: every well-formed frame of the two identifiers. */
  ghost function Offered(cfg: Config, q: Queue, steps: seq<Step>): seq<Msg>
    requires Inv(cfg, q)
    decreases |steps|
  {
    if steps == [] then []
    else
      StepKeepsInv(cfg, q, steps[0]);
      var rest := Offered(cfg, Next(cfg, q, steps[0]), steps[1..]);
      match steps[0]
      case Arrive(id, data) =>
        if q.p.Idle? && WellFormed(id, data) && Ours(cfg, id) then [Msg(id, data.value)] + rest else rest
      case _ => rest
  }

  /** And those that were no frames at all, whatever their identifier. */
  ghost function Malformed(cfg: Config, q: Queue, steps: seq<Step>): nat
    requires Inv(cfg, q)
    decreases |steps|
  {
    if steps == [] then 0
    else
      StepKeepsInv(cfg, q, steps[0]);
      Malformed(cfg, Next(cfg, q, steps[0]), steps[1..])
      + match steps[0]
        case Arrive(id, data) => if q.p.Idle? && !WellFormed(id, data) then 1 else 0
        case _ => 0
  }

  /** `a` is `b` with some elements left out. */
  ghost predicate Selection<T(!new)>(a: seq<T>, b: seq<T>) {
    a == [] ||
    (b != [] && (Selection(a, b[..|b| - 1])
                 || (a[|a| - 1] == b[|b| - 1] && Selection(a[..|a| - 1], b[..|b| - 1]))))
  }

  lemma {:induction false} LeftOut<T(!new)>(a: seq<T>, x: T, b: seq<T>)
    requires Selection(a + [x], b)
    ensures Selection(a, b)
    decreases |b|
  {
    assert (a + [x])[..|a|] == a;
    var b' := b[..|b| - 1];
    if Selection(a + [x], b') {
      LeftOut(a, x, b');
    }
  }

  lemma BothGrow<T(!new)>(a: seq<T>, b: seq<T>, x: T)
    requires Selection(a, b)
    ensures Selection(a + [x], b + [x])
  {
    assert (a + [x])[..|a|] == a && (b + [x])[..|b|] == b;
  }

  /** Nothing of it left out. */
  lemma {:induction false} FullSelection<T(!new)>(a: seq<T>, b: seq<T>)
    requires Selection(a, b)
    ensures |a| <= |b| && (|a| == |b| ==> a == b)
    decreases |b|
  {
    if a != [] {
      var a', b' := a[..|a| - 1], b[..|b| - 1];
      if Selection(a, b') {
        FullSelection(a, b');
      } else {
        FullSelection(a', b');
        assert a == a' + [a[|a| - 1]] && b == b' + [b[|b| - 1]];
      }
    }
  }

  /** Everything accepted, and what the producer has in hand. */
  function Kept(q: Queue): seq<Msg> {
    q.accepted + match q.p case HeadLoaded(m, _) => [m] case Writing(m, _, _) => [m] case _ => []
  }

  ghost predicate Explained(q: Queue, offered: seq<Msg>, malformed: nat) {
    Selection(Kept(q), offered) && q.arrivals == |offered| && q.invalid == malformed
  }

  lemma ArrivalIsExplained(cfg: Config, q: Queue, id: u32, data: Option<seq<byte>>, offered: seq<Msg>, malformed: nat)
    requires Shaped(cfg, q) && q.p.Idle? && Explained(q, offered, malformed)
    ensures var q' := Next(cfg, q, Arrive(id, data));
            if !WellFormed(id, data) then Explained(q', offered, malformed + 1)
            else if Ours(cfg, id) then Explained(q', offered + [Msg(id, data.value)], malformed)
            else q' == q
  {
    if WellFormed(id, data) && Ours(cfg, id) {
      BothGrow(Kept(q), offered, Msg(id, data.value));
      assert Kept(q) == q.accepted;
    }
  }

  lemma OtherStepIsExplained(cfg: Config, q: Queue, step: Step, offered: seq<Msg>, malformed: nat)
    requires Shaped(cfg, q) && Explained(q, offered, malformed) && (step.Arrive? ==> !q.p.Idle?)
    ensures Explained(Next(cfg, q, step), offered, malformed)
  {
    var q' := Next(cfg, q, step);
    if q.p.HeadLoaded? && q'.p.Idle? {
      LeftOut(q.accepted, q.p.m, offered);
      assert Kept(q') == q.accepted;
    } else {
      assert Kept(q') == Kept(q);
    }
  }

  lemma {:induction false} RunIsExplained(cfg: Config, q: Queue, steps: seq<Step>, offered: seq<Msg>, malformed: nat)
    requires Inv(cfg, q) && Explained(q, offered, malformed)
    ensures Explained(Run(cfg, q, steps), offered + Offered(cfg, q, steps), malformed + Malformed(cfg, q, steps))
    decreases |steps|
  {
    if steps == [] {
      assert offered + [] == offered;
    } else {
      var step, q' := steps[0], Next(cfg, q, steps[0]);
      StepKeepsInv(cfg, q, step);
      var first: seq<Msg>, bad := [], 0;
      if step.Arrive? && q.p.Idle? {
        ArrivalIsExplained(cfg, q, step.id, step.data, offered, malformed);
        if !WellFormed(step.id, step.data) { bad := 1; }
        else if Ours(cfg, step.id) { first := [Msg(step.id, step.data.value)]; }
      } else {
        OtherStepIsExplained(cfg, q, step, offered, malformed);
      }
      assert offered + [] == offered;
      RunIsExplained(cfg, q', steps[1..], offered + first, malformed + bad);
      assert offered + first + Offered(cfg, q', steps[1..]) == offered + (first + Offered(cfg, q', steps[1..]));
    }
  }

  /**
   * The filter, in every interleaving. What the queue takes in is a selection, in order, of the well-formed frames
   * of the two identifiers; what it leaves out it has counted as dropped, so that without drops it is all of
   * them; and exactly the arrivals that are no frames are counted as invalid.
   */
  lemma OfferedIsTaken(cfg: Config, slots: seq<Slot>, steps: seq<Step>)
    requires cfg.capacity >= 1 && |slots| == cfg.capacity && forall s <- slots :: |s.data| == 8
    ensures Inv(cfg, Start(cfg, slots))
    ensures var q, offered := Run(cfg, Start(cfg, slots), steps), Offered(cfg, Start(cfg, slots), steps);
            && Selection(Kept(q), offered)
            && |offered| == |Kept(q)| + q.dropped
            && (q.dropped == 0 ==> Kept(q) == offered)
            && q.invalidCount == Malformed(cfg, Start(cfg, slots), steps) % TWO_32
  {
    QueueIsFifo(cfg, slots, steps);
    var q0 := Start(cfg, slots);
    assert Kept(q0) == [];
    RunIsExplained(cfg, q0, steps, [], 0);
    var q, offered := Run(cfg, q0, steps), Offered(cfg, q0, steps);
    assert [] + offered == offered;
    FullSelection(Kept(q), offered);
  }

  // --------------------------------------------------------------- progress

  /** One side makes `n` moves while the other rests. */
  function Repeat(cfg: Config, q: Queue, step: Step, n: nat): (q': Queue)
    requires Inv(cfg, q)
    ensures Inv(cfg, q')
    decreases n
  {
    if n == 0 then q else StepKeepsInv(cfg, q, step); Repeat(cfg, Next(cfg, q, step), step, n - 1)
  }

  lemma Moved(cfg: Config, q: Queue, step: Step) returns (q': Queue)
    requires Inv(cfg, q)
    ensures Shaped(cfg, q) && q' == Next(cfg, q, step) && Inv(cfg, q')
    ensures forall n: nat :: Repeat(cfg, q, step, n + 1) == Repeat(cfg, q', step, n)
  {
    StepKeepsInv(cfg, q, step);
    q' := Next(cfg, q, step);
  }

  lemma {:induction false} WritingFinishes(cfg: Config, q: Queue)
    requires Inv(cfg, q) && q.p.Writing?
    ensures var q' := Repeat(cfg, q, ProducerMoves, |q.p.m.bytes| + 4 - q.p.done);
            q'.p.Idle? && q'.accepted == q.accepted + [q.p.m] && q'.popped == q.popped
    decreases |q.p.m.bytes| + 2 - q.p.done
  {
    hide Inv;
    var next := Moved(cfg, q, ProducerMoves);
    if q.p.done < |q.p.m.bytes| + 2 {
      WritingFinishes(cfg, next);
    } else {
      var _ := Moved(cfg, next, ProducerMoves);
    }
  }

  /** One piece more is read. */
  lemma PieceIsRead(cfg: Config, q: Queue, m: Msg) returns (q': Queue)
    requires Inv(cfg, q) && q.c.Reading? && InHand(q, m) && q.c.done < |m.bytes| + 2
    ensures Inv(cfg, q') && q'.c.Reading? && InHand(q', m) && q'.c.done == q.c.done + 1
    ensures q'.accepted == q.accepted && q'.popped == q.popped
    ensures forall n: nat :: Repeat(cfg, q, ConsumerMoves, n + 1) == Repeat(cfg, q', ConsumerMoves, n)
  {
    var m' := ReadInHand(cfg, q);
    q' := Moved(cfg, q, ConsumerMoves);
  }

  lemma LastPieceWasRead(cfg: Config, q: Queue, m: Msg) returns (q': Queue)
    requires Inv(cfg, q) && q.c.Reading? && InHand(q, m) && q.c.done == |m.bytes| + 2
    ensures Inv(cfg, q') && q'.c.Waiting? && q'.popped == q.popped + [m] && q'.accepted == q.accepted
    ensures Repeat(cfg, q, ConsumerMoves, 1) == q'
  {
    var m' := ReadInHand(cfg, q);
    q' := Moved(cfg, q, ConsumerMoves);
    assert Repeat(cfg, q, ConsumerMoves, 0 + 1) == Repeat(cfg, q', ConsumerMoves, 0);
  }

  /** The frame the consumer is reading is the oldest queued. */
  predicate InHand(q: Queue, m: Msg) {
    |q.popped| < |q.accepted| && m == q.accepted[|q.popped|]
  }

  lemma {:induction false} ReadingFinishes(cfg: Config, q: Queue, m: Msg)
    requires Inv(cfg, q) && q.c.Reading? && InHand(q, m) && q.c.done <= |m.bytes| + 2
    ensures var q' := Repeat(cfg, q, ConsumerMoves, |m.bytes| + 3 - q.c.done);
            q'.c.Waiting? && q'.popped == q.popped + [m] && q'.accepted == q.accepted
    decreases |m.bytes| + 2 - q.c.done
  {
    hide Inv;
    hide InHand;
    hide Repeat;
    if q.c.done < |m.bytes| + 2 {
      var next := PieceIsRead(cfg, q, m);
      ReadingFinishes(cfg, next, m);
      assert Repeat(cfg, q, ConsumerMoves, (|m.bytes| + 2 - q.c.done) + 1)
          == Repeat(cfg, next, ConsumerMoves, |m.bytes| + 2 - q.c.done);
    } else {
      var _ := LastPieceWasRead(cfg, q, m);
    }
  }

  lemma ReadInHand(cfg: Config, q: Queue) returns (m: Msg)
    requires Inv(cfg, q) && q.c.Reading?
    ensures |q.popped| < |q.accepted| && m == q.accepted[|q.popped|]
    ensures q.c.done <= |m.bytes| + 2 <= 10 && (q.c.done >= 2 ==> q.c.dlc == |m.bytes|)
    ensures q.c.done == |m.bytes| + 2 ==> Msg(q.c.id, q.c.bytes) == m
  {
    m := q.accepted[|q.popped|];
    assert Holds(q.slots[|q.popped| % cfg.capacity], m);
    assert m.bytes[..|m.bytes|] == m.bytes;
  }

  /**
   * Left to itself, the interrupt is done with a frame after a bounded number of steps: the frame is the newest
   * accepted one, or has been counted as dropped if capacity - 1 frames were queued.
   */
  lemma ArrivalIsServed(cfg: Config, q: Queue, id: u32, data: Option<seq<byte>>)
    requires Inv(cfg, q) && q.p.Idle? && WellFormed(id, data) && Ours(cfg, id)
    ensures Inv(cfg, Next(cfg, q, Arrive(id, data)))
    ensures var room := |Contents(q)| < cfg.capacity - 1;
            var q' := Repeat(cfg, Next(cfg, q, Arrive(id, data)), ProducerMoves,
                             if room then |data.value| + 5 else 1);
            && q'.p.Idle? && q'.popped == q.popped
            && q'.accepted == (if room then q.accepted + [Msg(id, data.value)] else q.accepted)
            && q'.dropped == q.dropped + (if room then 0 else 1)
  {
    FullExactly(cfg, q);
    StepKeepsInv(cfg, q, Arrive(id, data));
    var loaded := Next(cfg, q, Arrive(id, data));
    var decided := Moved(cfg, loaded, ProducerMoves);
    if decided.p.Writing? {
      WritingFinishes(cfg, decided);
      RepeatDropsNothing(cfg, decided, |data.value| + 4);
    }
  }

  lemma {:induction false} RepeatDropsNothing(cfg: Config, q: Queue, n: nat)
    requires Inv(cfg, q) && !q.p.HeadLoaded?
    ensures Repeat(cfg, q, ProducerMoves, n).dropped == q.dropped
    decreases n
  {
    hide Inv;
    if n > 0 {
      var next := Moved(cfg, q, ProducerMoves);
      RepeatDropsNothing(cfg, next, n - 1);
    }
  }

  /** And a poll of the main line gets the oldest frame queued, or finds the queue empty. */
  lemma PollTakesOldest(cfg: Config, q: Queue)
    requires Inv(cfg, q) && q.c.Waiting?
    ensures Inv(cfg, Next(cfg, q, Poll))
    ensures var some := Contents(q) != [];
            var q' := Repeat(cfg, Next(cfg, q, Poll), ConsumerMoves,
                             if some then |Contents(q)[0].bytes| + 4 else 1);
            && q'.c.Waiting? && q'.accepted == q.accepted
            && q'.popped == if some then q.popped + [Contents(q)[0]] else q.popped
  {
    EmptyExactly(cfg, q);
    StepKeepsInv(cfg, q, Poll);
    var loaded := Next(cfg, q, Poll);
    var decided := Moved(cfg, loaded, ConsumerMoves);
    if decided.c.Reading? {
      ReadingFinishes(cfg, decided, q.accepted[|q.popped|]);
    }
  }
}
