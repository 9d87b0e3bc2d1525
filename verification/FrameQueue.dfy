/**
 * The lock-free receive queue between an interrupt (the only producer) and the main line (the only
 * consumer), at the grain of single memory accesses: every load of an index, every field and byte copied
 * and every index publication is a step of its own, and the two sides interleave freely.
 */
module FrameQueue {
  import opened Words

  /** A frame as handed over: identifier and the bytes that count. */
  datatype Msg = Msg(id: u32, bytes: seq<byte>)

  /** A queue slot has room for eight bytes whatever the length field says. */
  datatype Slot = Slot(id: u32, dlc: byte, data: seq<byte>)

  /** Queue capacity, and the two identifiers let through (none: all standard identifiers are). */
  datatype Config = Config(capacity: nat, ids: Option<(u32, u32)>)

  datatype Verdict = Invalid | Foreign | Taken

  function Judge(cfg: Config, id: u32, data: Option<seq<byte>>): Verdict {
    if data.None? || |data.value| > 8 || id > 0x7FF then Invalid
    else if cfg.ids.Some? && id != cfg.ids.value.0 && id != cfg.ids.value.1 then Foreign
    else Taken
  }

  function NextIndex(index: nat, capacity: nat): nat {
    if index + 1 == capacity then 0 else index + 1
  }

  /** Producer: idle; own index loaded; copying, `done` pieces written; index published. */
  datatype Producer = Idle | HeadLoaded(m: Msg, head: nat) | Writing(m: Msg, head: nat, done: nat) | Published

  /** Consumer: idle; own index loaded; copying, `done` pieces read. */
  datatype Consumer =
    | Waiting | TailLoaded(tail: nat) | Reading(tail: nat, done: nat, id: u32, dlc: byte, bytes: seq<byte>)

  /**
   * Shared memory, both program counters, and the history of a run: frames accepted and popped so far,
   * arrivals that passed the filter, and drops.
   */
  datatype Queue = Queue(slots: seq<Slot>, head: nat, tail: nat,
                         framesCount: u32, overflowCount: u32, invalidCount: u32,
                         p: Producer, c: Consumer,
                         accepted: seq<Msg>, popped: seq<Msg>, arrivals: nat, dropped: nat, invalid: nat)

  datatype Step = Arrive(id: u32, data: Option<seq<byte>>) | ProducerMoves | Poll | ConsumerMoves

  function WritePiece(s: Slot, m: Msg, k: nat): Slot
    requires |s.data| == 8 && |m.bytes| <= 8 && k < |m.bytes| + 2
  {
    if k == 0 then s.(id := m.id)
    else if k == 1 then s.(dlc := |m.bytes|)
    else s.(data := s.data[k - 2 := m.bytes[k - 2]])
  }

  function Produce(cfg: Config, q: Queue): Queue
    requires Shaped(cfg, q)
  {
    match q.p
    case HeadLoaded(m, head) =>
      if NextIndex(head, cfg.capacity) == q.tail then
        q.(p := Idle, overflowCount := Add32(q.overflowCount, 1), dropped := q.dropped + 1)
      else q.(p := Writing(m, head, 0))
    case Writing(m, head, done) =>
      if done < |m.bytes| + 2 then
        q.(slots := q.slots[head := WritePiece(q.slots[head], m, done)], p := Writing(m, head, done + 1))
      else
        q.(head := NextIndex(head, cfg.capacity), p := Published, accepted := q.accepted + [m])
    case Published => q.(p := Idle, framesCount := Add32(q.framesCount, 1))
    case Idle => q
  }

  function Consume(cfg: Config, q: Queue): Queue
    requires Shaped(cfg, q)
  {
    match q.c
    case TailLoaded(tail) => if tail == q.head then q.(c := Waiting) else q.(c := Reading(tail, 0, 0, 0, []))
    case Reading(tail, done, id, dlc, bytes) =>
      if done == 0 then q.(c := Reading(tail, 1, q.slots[tail].id, dlc, bytes))
      else if done == 1 then q.(c := Reading(tail, 2, id, q.slots[tail].dlc, bytes))
      else if done < dlc + 2 && done < 10 then
        q.(c := Reading(tail, done + 1, id, dlc, bytes + [q.slots[tail].data[done - 2]]))
      else
        q.(c := Waiting, tail := NextIndex(tail, cfg.capacity), popped := q.popped + [Msg(id, bytes)])
    case Waiting => q
  }

  function Next(cfg: Config, q: Queue, step: Step): Queue
    requires Shaped(cfg, q)
  {
    match step
    case Arrive(id, data) =>
      if !q.p.Idle? then q
      else
        (match Judge(cfg, id, data)
         case Invalid => q.(invalidCount := Add32(q.invalidCount, 1), invalid := q.invalid + 1)
         case Foreign => q
         case Taken => q.(p := HeadLoaded(Msg(id, data.value), q.head), arrivals := q.arrivals + 1))
    case ProducerMoves => Produce(cfg, q)
    case Poll => if q.c.Waiting? then q.(c := TailLoaded(q.tail)) else q
    case ConsumerMoves => Consume(cfg, q)
  }

  /** What makes every access of a step fall inside the arrays. */
  predicate Shaped(cfg: Config, q: Queue) {
    && cfg.capacity >= 1 && |q.slots| == cfg.capacity
    && (forall s <- q.slots :: |s.data| == 8)
    && (q.p.Writing? ==> q.p.head < cfg.capacity && |q.p.m.bytes| <= 8 && q.p.done <= |q.p.m.bytes| + 2)
    && (q.c.Reading? ==> q.c.tail < cfg.capacity)
  }

  // -------------------------------------------------------------- invariant

  ghost predicate Holds(s: Slot, m: Msg) {
    |s.data| == 8 && |m.bytes| <= 8 && s.id == m.id && s.dlc == |m.bytes| && s.data[..|m.bytes|] == m.bytes
  }

  ghost predicate ProducerInv(cfg: Config, q: Queue)
    requires Shaped(cfg, q)
  {
    match q.p
    case HeadLoaded(m, head) => head == q.head && |m.bytes| <= 8
    case Writing(m, head, done) =>
      && head == q.head && |q.accepted| - |q.popped| < cfg.capacity - 1
      && (done >= 1 ==> q.slots[head].id == m.id)
      && (done >= 2 ==> q.slots[head].dlc == |m.bytes| && q.slots[head].data[..done - 2] == m.bytes[..done - 2])
    case _ => true
  }

  ghost predicate ConsumerInv(cfg: Config, q: Queue)
    requires Shaped(cfg, q)
  {
    match q.c
    case TailLoaded(tail) => tail == q.tail
    case Reading(tail, done, id, dlc, bytes) =>
      && tail == q.tail && |q.popped| < |q.accepted|
      && var m := q.accepted[|q.popped|];
         && done <= |m.bytes| + 2
         && (done >= 1 ==> id == m.id)
         && (done >= 2 ==> dlc == |m.bytes| && bytes == m.bytes[..done - 2])
         && (done < 2 ==> bytes == [])
    case Waiting => true
  }

  /** 1 while an arrival that passed the filter is neither accepted nor dropped yet. */
  function Pending(q: Queue): nat {
    if q.p.HeadLoaded? || q.p.Writing? then 1 else 0
  }

  ghost predicate Inv(cfg: Config, q: Queue) {
    && Shaped(cfg, q)
    && |q.popped| <= |q.accepted| <= |q.popped| + cfg.capacity - 1
    && q.popped == q.accepted[..|q.popped|]
    && q.head == |q.accepted| % cfg.capacity && q.tail == |q.popped| % cfg.capacity
    && (forall k :: |q.popped| <= k < |q.accepted| ==> Holds(q.slots[k % cfg.capacity], q.accepted[k]))
    && ProducerInv(cfg, q) && ConsumerInv(cfg, q)
  }

  /** Every arrival that passed the filter is accepted, dropped or in hand; the counters show it modulo 2^32. */
  ghost predicate Accounted(q: Queue) {
    && q.arrivals == |q.accepted| + q.dropped + Pending(q)
    && (q.p.Published? ==> q.accepted != [])
    && q.framesCount == (|q.accepted| - if q.p.Published? then 1 else 0) % TWO_32
    && q.overflowCount == q.dropped % TWO_32 && q.invalidCount == q.invalid % TWO_32
  }

  lemma BumpWraps(n: nat)
    ensures Add32(n % TWO_32, 1) == (n + 1) % TWO_32
  {
  }

  lemma StepKeepsAccounts(cfg: Config, q: Queue, step: Step)
    requires Shaped(cfg, q) && Accounted(q)
    ensures Accounted(Next(cfg, q, step))
  {
    BumpWraps(q.dropped);
    BumpWraps(q.invalid);
    if q.p.Published? {
      BumpWraps(|q.accepted| - 1);
    }
  }

  lemma SameIndexIsALap(j: nat, k: nat, n: nat)
    requires n >= 1 && j < k && j % n == k % n
    ensures k >= j + n
  {
    var d := k / n - j / n;
    assert n * d == k - j;
    Multiples(d, n);
  }

  /** Positions less than a lap apart have different indices. */
  lemma IndicesDiffer(j: nat, k: nat, n: nat)
    requires n >= 1 && j < k < j + n
    ensures j % n != k % n
  {
    if j % n == k % n {
      SameIndexIsALap(j, k, n);
    }
  }

  lemma NextIndexWraps(k: nat, n: nat)
    requires n >= 1
    ensures NextIndex(k % n, n) == (k + 1) % n
    ensures k % n < n
  {
    Successor(k, n);
  }

  /** With `a` frames in and `p` out, the index after the head meets the tail exactly at n - 1 queued. */
  lemma FullIndex(a: nat, p: nat, n: nat)
    requires n >= 1 && p <= a <= p + n - 1
    ensures NextIndex(a % n, n) == p % n <==> a - p == n - 1
  {
    NextIndexWraps(a, n);
    if a - p == n - 1 {
      assert a + 1 == (p / n + 1) * n + p % n;
      Remainder(a + 1, p / n + 1, p % n, n);
    } else {
      IndicesDiffer(p, a + 1, n);
    }
  }

  function Start(cfg: Config, slots: seq<Slot>): Queue {
    Queue(slots, 0, 0, 0, 0, 0, Idle, Waiting, [], [], 0, 0, 0)
  }

  // ----------------------------------------------------------------- proofs

  /** The two sides never touch the same slot at the same time. */
  lemma NoSharedSlot(cfg: Config, q: Queue)
    requires Inv(cfg, q) && q.p.Writing? && q.c.Reading?
    ensures q.p.head != q.c.tail
  {
    IndicesDiffer(|q.popped|, |q.accepted|, cfg.capacity);
  }

  lemma PieceKeepsOthers(cfg: Config, q: Queue, k: nat)
    requires Inv(cfg, q) && q.p.Writing? && |q.popped| <= k < |q.accepted|
    ensures k % cfg.capacity != q.p.head
  {
    IndicesDiffer(k, |q.accepted|, cfg.capacity);
  }

  lemma WritingKeepsInv(cfg: Config, q: Queue)
    requires Inv(cfg, q) && q.p.Writing? && q.p.done < |q.p.m.bytes| + 2
    ensures Inv(cfg, Produce(cfg, q))
  {
    var q' := Produce(cfg, q);
    forall k | |q.popped| <= k < |q.accepted|
      ensures Holds(q'.slots[k % cfg.capacity], q.accepted[k])
    {
      PieceKeepsOthers(cfg, q, k);
    }
    NextIndexWraps(|q.accepted|, cfg.capacity);
    var s, s', done := q.slots[q.head], q'.slots[q.head], q.p.done;
    if done >= 2 {
      assert s'.data[..done - 1] == s.data[..done - 2] + [q.p.m.bytes[done - 2]];
      assert q.p.m.bytes[..done - 1] == q.p.m.bytes[..done - 2] + [q.p.m.bytes[done - 2]];
    }
  }

  lemma PublishKeepsInv(cfg: Config, q: Queue)
    requires Inv(cfg, q) && q.p.Writing? && q.p.done == |q.p.m.bytes| + 2
    ensures Inv(cfg, Produce(cfg, q))
  {
    NextIndexWraps(|q.accepted|, cfg.capacity);
    assert q.p.m.bytes[..|q.p.m.bytes|] == q.p.m.bytes;
  }

  /** Comparing with the other side's index tells exactly whether the queue is full. */
  lemma FullExactly(cfg: Config, q: Queue)
    requires Inv(cfg, q)
    ensures NextIndex(q.head, cfg.capacity) == q.tail <==> |q.accepted| - |q.popped| == cfg.capacity - 1
  {
    FullIndex(|q.accepted|, |q.popped|, cfg.capacity);
  }

  lemma DecideKeepsInv(cfg: Config, q: Queue)
    requires Inv(cfg, q) && q.p.HeadLoaded?
    ensures Inv(cfg, Produce(cfg, q))
  {
    FullExactly(cfg, q);
    NextIndexWraps(|q.accepted|, cfg.capacity);
  }

  lemma CountKeepsInv(cfg: Config, q: Queue)
    requires Inv(cfg, q) && (q.p.Published? || q.p.Idle?)
    ensures Inv(cfg, Produce(cfg, q))
  {
  }

  lemma ProduceKeepsInv(cfg: Config, q: Queue)
    requires Inv(cfg, q)
    ensures Inv(cfg, Produce(cfg, q))
  {
    if q.p.HeadLoaded? { DecideKeepsInv(cfg, q); }
    else if !q.p.Writing? { CountKeepsInv(cfg, q); }
    else if q.p.done < |q.p.m.bytes| + 2 { WritingKeepsInv(cfg, q); }
    else { PublishKeepsInv(cfg, q); }
  }

  lemma EmptyExactly(cfg: Config, q: Queue)
    requires Inv(cfg, q)
    ensures q.head == q.tail <==> |q.accepted| == |q.popped|
  {
    if |q.popped| < |q.accepted| {
      IndicesDiffer(|q.popped|, |q.accepted|, cfg.capacity);
    }
  }

  lemma ConsumeKeepsInv(cfg: Config, q: Queue)
    requires Inv(cfg, q)
    ensures Inv(cfg, Consume(cfg, q))
  {
    EmptyExactly(cfg, q);
    NextIndexWraps(|q.popped|, cfg.capacity);
    if q.c.Reading? {
      var m := q.accepted[|q.popped|];
      assert Holds(q.slots[q.tail], m);
      if 2 <= q.c.done < |m.bytes| + 2 {
        assert m.bytes[..q.c.done - 1] == m.bytes[..q.c.done - 2] + [q.slots[q.tail].data[q.c.done - 2]];
      } else {
        assert m.bytes[..|m.bytes|] == m.bytes;
        assert q.accepted[..|q.popped| + 1] == q.accepted[..|q.popped|] + [m];
      }
    }
  }

  lemma StepKeepsInv(cfg: Config, q: Queue, step: Step)
    requires Inv(cfg, q)
    ensures Inv(cfg, Next(cfg, q, step))
  {
    match step {
      case Arrive(_, _) =>
      case ProducerMoves => ProduceKeepsInv(cfg, q);
      case Poll =>
      case ConsumerMoves => ConsumeKeepsInv(cfg, q);
    }
  }

  // ------------------------------------------------------------ main results

  /** The abstract queue: what has been accepted and not yet popped. */
  function Contents(q: Queue): seq<Msg>
    requires |q.popped| <= |q.accepted|
  {
    q.accepted[|q.popped|..]
  }

  /**
   * Every step of either side is, on the abstract queue, nothing, the append of the arrival in hand, or
   * the removal of the oldest frame; an arrival is dropped only when capacity - 1 frames are queued.
   */
  lemma StepRefinesFifo(cfg: Config, q: Queue, step: Step)
    requires Inv(cfg, q)
    ensures Inv(cfg, Next(cfg, q, step))
    ensures var q' := Next(cfg, q, step);
            var before, after := Contents(q), Contents(q');
            || (after == before && q'.popped == q.popped && q'.accepted == q.accepted)
            || (step == ProducerMoves && q.p.Writing? && after == before + [q.p.m] && q'.popped == q.popped)
            || (step == ConsumerMoves && before != [] && after == before[1..] && q'.popped == q.popped + [before[0]])
    ensures Next(cfg, q, step).dropped > q.dropped ==> |Contents(q)| == cfg.capacity - 1
  {
    StepKeepsInv(cfg, q, step);
    var q' := Next(cfg, q, step);
    if q'.accepted != q.accepted {
      assert Contents(q') == Contents(q) + [q.p.m];
    } else if q'.popped != q.popped {
      assert q'.popped == q'.accepted[..|q'.popped|];
      assert Contents(q') == Contents(q)[1..];
    }
    FullExactly(cfg, q);
  }

  function Run(cfg: Config, q: Queue, steps: seq<Step>): (q': Queue)
    requires Inv(cfg, q)
    ensures Inv(cfg, q')
    decreases |steps|
  {
    if steps == [] then q else StepKeepsInv(cfg, q, steps[0]); Run(cfg, Next(cfg, q, steps[0]), steps[1..])
  }

  lemma {:induction false} RunKeepsAccounts(cfg: Config, q: Queue, steps: seq<Step>)
    requires Inv(cfg, q) && Accounted(q)
    ensures Accounted(Run(cfg, q, steps))
    decreases |steps|
  {
    if steps != [] {
      StepKeepsAccounts(cfg, q, steps[0]);
      StepKeepsInv(cfg, q, steps[0]);
      RunKeepsAccounts(cfg, Next(cfg, q, steps[0]), steps[1..]);
    }
  }

  /**
   * In every interleaving: the popped frames are a prefix of the accepted ones, in order and byte for
   * byte; at most capacity - 1 frames are queued; the two sides never work on the same slot; and every
   * arrival that passes the filter is accepted, counted as overflow, or still in the producer's hands.
   */
  lemma QueueIsFifo(cfg: Config, slots: seq<Slot>, steps: seq<Step>)
    requires cfg.capacity >= 1 && |slots| == cfg.capacity && forall s <- slots :: |s.data| == 8
    ensures Inv(cfg, Start(cfg, slots))
    ensures var q := Run(cfg, Start(cfg, slots), steps);
            && q.popped <= q.accepted
            && |q.accepted| - |q.popped| <= cfg.capacity - 1
            && (q.p.Writing? && q.c.Reading? ==> q.p.head != q.c.tail)
            && q.arrivals == |q.accepted| + q.dropped + Pending(q)
            && (q.p.Idle? ==> q.framesCount == |q.accepted| % TWO_32)
            && q.overflowCount == q.dropped % TWO_32 && q.invalidCount == q.invalid % TWO_32
  {
    StartInv(cfg, slots);
    RunKeepsAccounts(cfg, Start(cfg, slots), steps);
    var q := Run(cfg, Start(cfg, slots), steps);
    if q.p.Writing? && q.c.Reading? {
      NoSharedSlot(cfg, q);
    }
  }

  lemma StartInv(cfg: Config, slots: seq<Slot>)
    requires cfg.capacity >= 1 && |slots| == cfg.capacity && forall s <- slots :: |s.data| == 8
    ensures Inv(cfg, Start(cfg, slots)) && Accounted(Start(cfg, slots))
  {
    Remainder(0, 0, 0, cfg.capacity);
  }
}
