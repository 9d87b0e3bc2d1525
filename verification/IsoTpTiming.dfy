/**
 * The sender in time. Operations happen at unbounded natural instants, counted in milliseconds; the sender
 * sees only the 32-bit clock, which wraps about every 49.7 days.
 */
module IsoTpTiming {
  import opened Words
  import opened IsoTp

  datatype Op =
    | Start(payload: seq<byte>, at: nat)
    | FlowControl(frame: CanFrame, at: nat)
    | Next(at: nat)
    | Tick(at: nat)

  function Apply(ep: Endpoint, tx: TxState, op: Op): (tx': TxState)
    requires TxValid(tx)
    ensures TxValid(tx')
  {
    match op
    case Start(payload, at) => TxStart(ep, tx, payload, Clock(at)).0
    case FlowControl(f, at) => TxFeedFlowControl(ep, tx, f, Clock(at)).0
    case Next(at) => TxNext(ep, tx, Clock(at)).0
    case Tick(at) => TxTick(tx, Clock(at)).0
  }

  function ApplyAll(ep: Endpoint, tx: TxState, ops: seq<Op>): (tx': TxState)
    requires TxValid(tx)
    ensures TxValid(tx')
    decreases |ops|
  {
    if ops == [] then tx else ApplyAll(ep, Apply(ep, tx, ops[0]), ops[1..])
  }

  /** The operation hands out a consecutive frame. */
  predicate Emits(ep: Endpoint, tx: TxState, op: Op)
    requires TxValid(tx)
  {
    op.Next? && TxNext(ep, tx, Clock(op.at)).1.frame.Some?
  }

  /** Flow-control frames the sender accepts in this state: clear to send, or wait within the budget. */
  predicate Accepts(ep: Endpoint, tx: TxState, op: Op, flowStatus: byte)
    requires TxValid(tx)
  {
    && op.FlowControl?
    && op.frame.canId == ep.requestId && 3 <= op.frame.dlc <= 8 && op.frame.data[0] == 0x30 + flowStatus
    && StMinOk(op.frame.data[2])
    && tx.active && tx.waiting
    && (flowStatus == 1 ==> tx.waitFrames < ep.config.maxWaitFrames)
  }

  /** Neither emits a frame nor opens a new block or a new transfer. */
  predicate WithinGap(ep: Endpoint, tx: TxState, op: Op)
    requires TxValid(tx)
  {
    !Emits(ep, tx, op) && !Accepts(ep, tx, op, 0) && !op.Start?
  }

  ghost predicate AllWithinGap(ep: Endpoint, tx: TxState, ops: seq<Op>)
    requires TxValid(tx)
    decreases |ops|
  {
    ops == [] || (WithinGap(ep, tx, ops[0]) && AllWithinGap(ep, Apply(ep, tx, ops[0]), ops[1..]))
  }

  /** The separation time a flow-control byte asks for, in microseconds. */
  function StMinMicros(stMin: byte): nat
    requires StMinOk(stMin)
  {
    if stMin <= 0x7F then stMin * 1000 else (stMin - 0xF0) * 100
  }

  /** The clock keeps it rounded up to whole milliseconds, and no further. */
  lemma SeparationIsRoundedUp(stMin: byte)
    requires StMinOk(stMin)
    ensures StMinMicros(stMin) <= 1000 * StMinToMs(stMin) < StMinMicros(stMin) + 1000
  {
  }

  lemma GapStepKeepsDue(ep: Endpoint, tx: TxState, op: Op)
    requires TxValid(tx) && WithinGap(ep, tx, op)
    ensures var tx' := Apply(ep, tx, op); tx'.active ==> tx.active && tx'.nextFrameMs == tx.nextFrameMs
  {
  }

  lemma {:induction false} GapKeepsDue(ep: Endpoint, tx: TxState, ops: seq<Op>)
    requires TxValid(tx) && AllWithinGap(ep, tx, ops)
    ensures var tx' := ApplyAll(ep, tx, ops); tx'.active ==> tx.active && tx'.nextFrameMs == tx.nextFrameMs
    decreases |ops|
  {
    if ops != [] {
      GapStepKeepsDue(ep, tx, ops[0]);
      GapKeepsDue(ep, Apply(ep, tx, ops[0]), ops[1..]);
    }
  }

  /**
   * In the milliseconds of the caller's clock, two consecutive frames of one block are never closer than the
   * separation time the peer asked for, however the clock wraps and whatever else is called in between.
   */
  lemma SeparationRespected(ep: Endpoint, tx: TxState, t: nat, between: seq<Op>, t': nat)
    requires TxValid(tx) && Emits(ep, tx, Next(t)) && t <= t'
    requires AllWithinGap(ep, Apply(ep, tx, Next(t)), between)
    requires Emits(ep, ApplyAll(ep, Apply(ep, tx, Next(t)), between), Next(t'))
    ensures (t' - t) * 1000 >= StMinMicros(tx.remoteStMin)
  {
    var sent := Apply(ep, tx, Next(t));
    GapKeepsDue(ep, sent, between);
    var delay := StMinToMs(tx.remoteStMin);
    assert ApplyAll(ep, sent, between).nextFrameMs == Add32(Clock(t), delay);
    if t' - t < delay {
      ExpiredIsElapsed(t, delay, t');
    }
  }

  /** The separation timer never holds a frame back longer: once the gap has passed, the frame goes out. */
  lemma DueFrameGoesOut(ep: Endpoint, tx: TxState, t: nat, t': nat)
    requires TxValid(tx) && Emits(ep, tx, Next(t))
    requires var sent := Apply(ep, tx, Next(t)); !sent.waiting && sent.offset < |sent.payload|
    requires StMinToMs(tx.remoteStMin) <= t' - t < ep.config.txTimeoutMs <= TWO_31
    ensures Emits(ep, Apply(ep, tx, Next(t)), Next(t'))
  {
    ExpiredIsElapsed(t, StMinToMs(tx.remoteStMin), t');
    ExpiredIsElapsed(t, ep.config.txTimeoutMs, t');
  }

  /** What a millisecond clock shows at an instant counted in microseconds. */
  function Millis(micros: nat): nat {
    micros / 1000
  }

  /**
   * In real time the phase of the call within its millisecond counts: that part of the separation time is lost
   * to the gap. The separation the clock keeps is the peer's, rounded up to whole milliseconds.
   */
  lemma SeparationInMicroseconds(ep: Endpoint, tx: TxState, u: nat, between: seq<Op>, u': nat)
    requires TxValid(tx) && Emits(ep, tx, Next(Millis(u))) && u <= u'
    requires AllWithinGap(ep, Apply(ep, tx, Next(Millis(u))), between)
    requires Emits(ep, ApplyAll(ep, Apply(ep, tx, Next(Millis(u))), between), Next(Millis(u')))
    ensures u' - u >= 1000 * StMinToMs(tx.remoteStMin) - u % 1000
  {
    var t, t' := Millis(u), Millis(u');
    var sent := Apply(ep, tx, Next(t));
    GapKeepsDue(ep, sent, between);
    var delay := StMinToMs(tx.remoteStMin);
    assert ApplyAll(ep, sent, between).nextFrameMs == Add32(Clock(t), delay);
    if t' - t < delay {
      ExpiredIsElapsed(t, delay, t');
    }
  }

  /** The frame handed out at `t` is neither the last of its block nor of its payload. */
  predicate AnotherFollows(ep: Endpoint, tx: TxState, t: nat)
    requires TxValid(tx)
  {
    var sent := Apply(ep, tx, Next(t));
    Emits(ep, tx, Next(t)) && !sent.waiting && sent.offset < |sent.payload|
  }

  /** The bound is met: called at the start of the right millisecond, the sender leaves no more than that gap. */
  lemma SeparationFallsShort(ep: Endpoint, tx: TxState, u: nat, u': nat)
    requires TxValid(tx) && AnotherFollows(ep, tx, Millis(u))
    requires StMinToMs(tx.remoteStMin) < ep.config.txTimeoutMs <= TWO_31
    requires u' == 1000 * (Millis(u) + StMinToMs(tx.remoteStMin))
    ensures Emits(ep, Apply(ep, tx, Next(Millis(u))), Next(Millis(u')))
    ensures u' - u == 1000 * StMinToMs(tx.remoteStMin) - u % 1000
  {
    assert Millis(u') == Millis(u) + StMinToMs(tx.remoteStMin);
    DueFrameGoesOut(ep, tx, Millis(u), Millis(u'));
  }

  /**
   * When the separation time holds in real time. For every separation time, the microsecond codes included,
   * every next frame keeps the distance exactly if none was asked for, or the first call did not come later
   * within its millisecond than the rounding up to whole milliseconds makes good: not at all for whole
   * milliseconds, and by 100 to 900 microseconds for the codes 0xF9 to 0xF1.
   */
  lemma SeparationHoldsExactly(ep: Endpoint, tx: TxState, u: nat)
    requires TxValid(tx) && AnotherFollows(ep, tx, Millis(u))
    requires StMinToMs(tx.remoteStMin) < ep.config.txTimeoutMs <= TWO_31
    ensures (forall u': nat :: u <= u' && Emits(ep, Apply(ep, tx, Next(Millis(u))), Next(Millis(u'))) ==>
               u' - u >= StMinMicros(tx.remoteStMin))
            <==> || tx.remoteStMin == 0
                 || u % 1000 <= 1000 * StMinToMs(tx.remoteStMin) - StMinMicros(tx.remoteStMin)
  {
    var u1 := 1000 * (Millis(u) + StMinToMs(tx.remoteStMin));
    SeparationFallsShort(ep, tx, u, u1);
    forall u': nat | u <= u' && Emits(ep, Apply(ep, tx, Next(Millis(u))), Next(Millis(u')))
      ensures u' - u >= 1000 * StMinToMs(tx.remoteStMin) - u % 1000
    {
      SeparationInMicroseconds(ep, tx, u, [], u');
    }
  }

  /**
   * Whether the frame after this one can go out at all is decided by the configuration: within half the
   * clock range there is an instant for it exactly if the separation time is shorter than the time-out.
   */
  lemma NextFrameHasItsTimeExactly(ep: Endpoint, tx: TxState, t: nat)
    requires TxValid(tx) && Emits(ep, tx, Next(t)) && ep.config.txTimeoutMs <= TWO_31
    requires var sent := Apply(ep, tx, Next(t)); !sent.waiting && sent.offset < |sent.payload|
    ensures (exists t': nat :: t <= t' < t + TWO_31 && Emits(ep, Apply(ep, tx, Next(t)), Next(t')))
            <==> StMinToMs(tx.remoteStMin) < ep.config.txTimeoutMs
  {
    var delay := StMinToMs(tx.remoteStMin);
    if delay < ep.config.txTimeoutMs {
      DueFrameGoesOut(ep, tx, t, t + delay);
    }
    forall t': nat | t <= t' < t + TWO_31 && Emits(ep, Apply(ep, tx, Next(t)), Next(t'))
      ensures delay < ep.config.txTimeoutMs
    {
      ExpiredIsElapsed(t, delay, t');
      ExpiredIsElapsed(t, ep.config.txTimeoutMs, t');
    }
  }

  /**
   * The same decides whether the transfer can be completed after its last frame: completion waits for the
   * separation time too.
   */
  lemma CompletionHasItsTimeExactly(ep: Endpoint, tx: TxState, t: nat)
    requires TxValid(tx) && Emits(ep, tx, Next(t)) && ep.config.txTimeoutMs <= TWO_31
    requires var sent := Apply(ep, tx, Next(t)); sent.offset == |sent.payload|
    ensures (exists t': nat :: t <= t' < t + TWO_31 && Completes(ep, Apply(ep, tx, Next(t)), t'))
            <==> StMinToMs(tx.remoteStMin) < ep.config.txTimeoutMs
  {
    var delay := StMinToMs(tx.remoteStMin);
    if delay < ep.config.txTimeoutMs {
      ExpiredIsElapsed(t, delay, t + delay);
      ExpiredIsElapsed(t, ep.config.txTimeoutMs, t + delay);
      assert Completes(ep, Apply(ep, tx, Next(t)), t + delay);
    }
    forall t': nat | t <= t' < t + TWO_31 && Completes(ep, Apply(ep, tx, Next(t)), t')
      ensures delay < ep.config.txTimeoutMs
    {
      ExpiredIsElapsed(t, delay, t');
      ExpiredIsElapsed(t, ep.config.txTimeoutMs, t');
    }
  }

  predicate Completes(ep: Endpoint, tx: TxState, t: nat)
    requires TxValid(tx)
  {
    TxNext(ep, tx, Clock(t)).1.status == Complete
  }

  // --------------------------------------------------------------- time-outs

  /** A sender that starts idle, after all of `ops`. */
  function Before(ep: Endpoint, ops: seq<Op>): (tx: TxState)
    ensures TxValid(tx)
  {
    if ops == [] then TX_RESET else Apply(ep, Before(ep, ops[..|ops| - 1]), ops[|ops| - 1])
  }

  /** The operations that give the transfer its time-out afresh. */
  predicate Stirs(ep: Endpoint, tx: TxState, op: Op)
    requires TxValid(tx)
  {
    || (op.Start? && 7 < |op.payload| <= MAX_PAYLOAD)
    || Accepts(ep, tx, op, 0) || Accepts(ep, tx, op, 1) || Emits(ep, tx, op)
  }

  /** When the transfer last got on: its start, the flow control last accepted, or the frame last handed out. */
  ghost function LastStir(ep: Endpoint, ops: seq<Op>): nat {
    if ops == [] then 0
    else
      var init, op := ops[..|ops| - 1], ops[|ops| - 1];
      if Stirs(ep, Before(ep, init), op) then op.at else LastStir(ep, init)
  }

  lemma StirSetsDeadline(ep: Endpoint, tx: TxState, op: Op)
    requires TxValid(tx) && Apply(ep, tx, op).active
    ensures Apply(ep, tx, op).deadlineMs
              == if Stirs(ep, tx, op) then Add32(Clock(op.at), ep.config.txTimeoutMs) else tx.deadlineMs
    ensures tx.active || Stirs(ep, tx, op)
  {
  }

  lemma {:induction false} DeadlineFromLastStir(ep: Endpoint, ops: seq<Op>)
    requires Before(ep, ops).active
    ensures Before(ep, ops).deadlineMs == Add32(Clock(LastStir(ep, ops)), ep.config.txTimeoutMs)
  {
    if ops != [] {
      var init := ops[..|ops| - 1];
      StirSetsDeadline(ep, Before(ep, init), ops[|ops| - 1]);
      if Before(ep, init).active {
        DeadlineFromLastStir(ep, init);
      }
    }
  }

  /**
   * When a transfer is given up. After any run, and within half the clock range of the last thing that got
   * the transfer on, a tick reports a time-out and resets exactly if the time-out has passed since then,
   * whether the sender is waiting for flow control or not; an idle sender is left alone.
   */
  lemma TickTimesOutExactly(ep: Endpoint, ops: seq<Op>, t: nat)
    requires ep.config.txTimeoutMs <= TWO_31
    requires LastStir(ep, ops) <= t < LastStir(ep, ops) + TWO_31
    ensures var tx := Before(ep, ops);
            TxTick(tx, Clock(t))
              == if tx.active && t - LastStir(ep, ops) >= ep.config.txTimeoutMs then (TX_RESET, ErrTimeout)
                 else (tx, Ok)
  {
    if Before(ep, ops).active {
      DeadlineFromLastStir(ep, ops);
      ExpiredIsElapsed(LastStir(ep, ops), ep.config.txTimeoutMs, t);
    }
  }

  /** How long the sender has to pause after that: the separation time after a frame, else not at all. */
  ghost function Pause(ep: Endpoint, ops: seq<Op>): u32 {
    if ops == [] then 0
    else
      var init, op := ops[..|ops| - 1], ops[|ops| - 1];
      if Emits(ep, Before(ep, init), op) then StMinToMs(Before(ep, init).remoteStMin)
      else if Stirs(ep, Before(ep, init), op) then 0
      else Pause(ep, init)
  }

  lemma StirSetsDue(ep: Endpoint, tx: TxState, op: Op)
    requires TxValid(tx) && Apply(ep, tx, op).active && !Apply(ep, tx, op).waiting
    ensures Apply(ep, tx, op).nextFrameMs
              == if Emits(ep, tx, op) then Add32(Clock(op.at), StMinToMs(tx.remoteStMin))
                 else if Stirs(ep, tx, op) then Clock(op.at)
                 else tx.nextFrameMs
    ensures Stirs(ep, tx, op) || (tx.active && !tx.waiting)
  {
  }

  lemma {:induction false} DueFromLastStir(ep: Endpoint, ops: seq<Op>)
    requires Before(ep, ops).active && !Before(ep, ops).waiting
    ensures Before(ep, ops).nextFrameMs == Add32(Clock(LastStir(ep, ops)), Pause(ep, ops))
    ensures Pause(ep, ops) <= 0x7F
  {
    if ops != [] {
      var init, op := ops[..|ops| - 1], ops[|ops| - 1];
      StirSetsDue(ep, Before(ep, init), op);
      if !Stirs(ep, Before(ep, init), op) {
        DueFromLastStir(ep, init);
      }
    }
  }

  /**
   * What asking for the next frame answers, after any run and within the same range: nothing while the sender
   * is idle, waiting or pausing; a time-out at the same instants as a tick; then a frame as long as bytes are
   * left, and completion after that. Both ends reset the sender.
   */
  lemma PollAnswersExactly(ep: Endpoint, ops: seq<Op>, t: nat)
    requires ep.config.txTimeoutMs <= TWO_31
    requires LastStir(ep, ops) <= t < LastStir(ep, ops) + TWO_31
    ensures var tx, since := Before(ep, ops), t - LastStir(ep, ops);
            var (tx', report) := TxNext(ep, tx, Clock(t));
            && report.status
                 == (if !tx.active || tx.waiting then Ok
                     else if since >= ep.config.txTimeoutMs then ErrTimeout
                     else if since < Pause(ep, ops) then Ok
                     else if tx.offset == |tx.payload| then Complete
                     else TxFrameReady)
            && (report.frame.Some? <==> report.status == TxFrameReady)
            && (report.status == Ok ==> tx' == tx)
            && (report.status == Complete || report.status == ErrTimeout ==> tx' == TX_RESET)
  {
    var tx := Before(ep, ops);
    if tx.active && !tx.waiting {
      DeadlineFromLastStir(ep, ops);
      DueFromLastStir(ep, ops);
      ExpiredIsElapsed(LastStir(ep, ops), ep.config.txTimeoutMs, t);
      ExpiredIsElapsed(LastStir(ep, ops), Pause(ep, ops), t);
    }
  }

  // ------------------------------------------------------------- wait budget

  /** WAIT frames accepted since the last clear-to-send or since the sender was last reset. */
  ghost function WaitsSince(ep: Endpoint, ops: seq<Op>): nat {
    if ops == [] then 0
    else
      var init, op := ops[..|ops| - 1], ops[|ops| - 1];
      var tx := Before(ep, init);
      if Accepts(ep, tx, op, 1) then WaitsSince(ep, init) + 1
      else if Accepts(ep, tx, op, 0) || Apply(ep, tx, op) == TX_RESET then 0
      else WaitsSince(ep, init)
  }

  /**
   * The wait counter is the number of WAIT frames accepted since the last clear-to-send or reset, and it
   * never exceeds the budget. Starting another multi-frame transfer does not renew the budget.
   */
  lemma {:induction false} WaitBudget(ep: Endpoint, ops: seq<Op>)
    ensures Before(ep, ops).waitFrames == WaitsSince(ep, ops) <= ep.config.maxWaitFrames
  {
    if ops != [] {
      var init := ops[..|ops| - 1];
      WaitBudget(ep, init);
      WaitStep(ep, Before(ep, init), ops[|ops| - 1]);
    }
  }

  lemma WaitStep(ep: Endpoint, tx: TxState, op: Op)
    requires TxValid(tx) && tx.waitFrames <= ep.config.maxWaitFrames
    ensures Apply(ep, tx, op).waitFrames
              == if Accepts(ep, tx, op, 1) then tx.waitFrames + 1
                 else if Accepts(ep, tx, op, 0) || Apply(ep, tx, op) == TX_RESET then 0
                 else tx.waitFrames
  {
  }

  lemma RestartKeepsWaitCount(ep: Endpoint, tx: TxState, payload: seq<byte>, at: nat)
    requires TxValid(tx) && 7 < |payload| <= MAX_PAYLOAD
    ensures Apply(ep, tx, Start(payload, at)).waitFrames == tx.waitFrames
    ensures Apply(ep, tx, Start(payload, at)).active && Apply(ep, tx, Start(payload, at)).payload == payload
  {
  }

  /** A well-formed WAIT from the peer. */
  predicate IsWait(ep: Endpoint, f: CanFrame) {
    f.canId == ep.requestId && 3 <= f.dlc <= 8 && f.data[0] == 0x31 && StMinOk(f.data[2])
  }

  /**
   * What follows: a transfer started after any run takes its first WAIT exactly if the WAITs since the last
   * clear-to-send or reset, those of abandoned transfers included, leave something of the budget; if not,
   * the new transfer is given up with a flow-control error.
   */
  lemma FirstWaitNeedsBudget(ep: Endpoint, ops: seq<Op>, payload: seq<byte>, at: nat, f: CanFrame, at': nat)
    requires 7 < |payload| <= MAX_PAYLOAD && IsWait(ep, f)
    ensures var started := Apply(ep, Before(ep, ops), Start(payload, at));
            var (tx', status) := TxFeedFlowControl(ep, started, f, Clock(at'));
            if WaitsSince(ep, ops) < ep.config.maxWaitFrames then
              status == Ok && tx'.active && tx'.waiting && tx'.waitFrames == WaitsSince(ep, ops) + 1
            else
              status == ErrFlowControl && tx' == TX_RESET
  {
    WaitBudget(ep, ops);
    RestartKeepsWaitCount(ep, Before(ep, ops), payload, at);
  }
}
