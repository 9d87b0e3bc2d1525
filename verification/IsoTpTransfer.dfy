/**
 * One transfer as its sender makes it, whatever comes in: any flow control, well formed or not, from any
 * node, any ticks and any clock readings.
 */
module IsoTpTransfer {
  import opened Words
  import opened IsoTp
  import opened IsoTpLink
  import T = IsoTpTiming

  /** None of the operations starts another transfer. */
  predicate NoStart(ops: seq<T.Op>) {
    forall op <- ops :: !op.Start?
  }

  /** The frame an operation hands out, if any. */
  function FrameOf(ep: Endpoint, tx: TxState, op: T.Op): seq<CanFrame>
    requires TxValid(tx)
  {
    if op.Next? then OneOrNone(TxNext(ep, tx, Clock(op.at)).1.frame) else []
  }

  /** The frames handed out along a run. */
  function Handed(ep: Endpoint, tx: TxState, ops: seq<T.Op>): seq<CanFrame>
    requires TxValid(tx)
    decreases |ops|
  {
    if ops == [] then [] else FrameOf(ep, tx, ops[0]) + Handed(ep, T.Apply(ep, tx, ops[0]), ops[1..])
  }

  /** The transfer is `s` consecutive frames along, or over. */
  ghost predicate Along(tx: TxState, payload: seq<byte>, s: nat) {
    && 7 < |payload| <= MAX_PAYLOAD && s <= CfCount(|payload|)
    && TxValid(tx) && (tx.active ==> SenderAt(tx, payload, s))
  }

  lemma FlowControlHoldsPlace(ep: Endpoint, tx: TxState, payload: seq<byte>, s: nat, f: CanFrame, now: u32)
    requires Along(tx, payload, s)
    ensures Along(TxFeedFlowControl(ep, tx, f, now).0, payload, s)
  {
  }

  lemma PollAdvances(ep: Endpoint, tx: TxState, payload: seq<byte>, s: nat, now: u32)
    requires Along(tx, payload, s)
    ensures var (tx', report) := TxNext(ep, tx, now);
            && (report.frame.None? ==> Along(tx', payload, s))
            && (report.frame.Some? ==>
                  s < CfCount(|payload|) && report.frame.value == FrameAt(ep.responseId, payload, s + 1)
                  && Along(tx', payload, s + 1))
            && (report.status == Complete ==> s == CfCount(|payload|))
  {
    CfCountIsCeiling(|payload|);
    if s < CfCount(|payload|) && tx.active {
      SenderEmits(ep, tx, payload, s, now);
    }
  }

  lemma OpAdvances(ep: Endpoint, tx: TxState, payload: seq<byte>, s: nat, op: T.Op)
    requires Along(tx, payload, s) && !op.Start?
    ensures var fs := FrameOf(ep, tx, op);
            && s + |fs| <= CfCount(|payload|)
            && (fs == [] || fs == [FrameAt(ep.responseId, payload, s + 1)])
            && Along(T.Apply(ep, tx, op), payload, s + |fs|)
  {
    match op {
      case FlowControl(f, at) => FlowControlHoldsPlace(ep, tx, payload, s, f, Clock(at));
      case Next(at) => PollAdvances(ep, tx, payload, s, Clock(at));
      case _ =>
    }
  }

  lemma FirstOp(ep: Endpoint, tx: TxState, payload: seq<byte>, s: nat, ops: seq<T.Op>)
    returns (fs: seq<CanFrame>, tx': TxState)
    requires Along(tx, payload, s) && NoStart(ops) && ops != []
    ensures s + |fs| <= CfCount(|payload|) && fs == Frames(ep.responseId, payload)[s + 1..s + |fs| + 1]
    ensures Along(tx', payload, s + |fs|) && NoStart(ops[1..])
    ensures Handed(ep, tx, ops) == fs + Handed(ep, tx', ops[1..])
    ensures T.ApplyAll(ep, tx, ops) == T.ApplyAll(ep, tx', ops[1..])
  {
    OpAdvances(ep, tx, payload, s, ops[0]);
    fs, tx' := FrameOf(ep, tx, ops[0]), T.Apply(ep, tx, ops[0]);
  }

  lemma StretchesJoin(frames: seq<CanFrame>, s: nat, first: seq<CanFrame>, rest: seq<CanFrame>)
    requires s + |first| + |rest| < |frames|
    requires first == frames[s + 1..s + |first| + 1]
    requires rest == frames[s + |first| + 1..s + |first| + |rest| + 1]
    ensures first + rest == frames[s + 1..s + |first + rest| + 1]
  {
  }

  lemma {:induction false} RunAdvances(ep: Endpoint, tx: TxState, payload: seq<byte>, s: nat, ops: seq<T.Op>)
    requires Along(tx, payload, s) && NoStart(ops)
    ensures var fs := Handed(ep, tx, ops);
            && s + |fs| <= CfCount(|payload|)
            && fs == Frames(ep.responseId, payload)[s + 1..s + |fs| + 1]
            && Along(T.ApplyAll(ep, tx, ops), payload, s + |fs|)
    decreases |ops|
  {
    hide FrameOf;
    hide T.Apply;
    if ops != [] {
      var fs, tx' := FirstOp(ep, tx, payload, s, ops);
      RunAdvances(ep, tx', payload, s + |fs|, ops[1..]);
      StretchesJoin(Frames(ep.responseId, payload), s, fs, Handed(ep, tx', ops[1..]));
    }
  }

  /** The sender right after the call that starts a transfer. */
  function Started(ep: Endpoint, tx: TxState, payload: seq<byte>, at: nat): (tx': TxState)
    requires TxValid(tx)
    ensures TxValid(tx')
  {
    T.Apply(ep, tx, T.Start(payload, at))
  }

  /**
   * What a sender sends. Whatever happens after the start of a segmented transfer, the frames handed out are
   * the payload's consecutive frames from the first on, in order, with nothing skipped or repeated; every
   * one of them shrinks the remainder; and completion is reported only after exactly ceil((n - 6) / 7).
   */
  lemma SenderSendsPayload(ep: Endpoint, tx: TxState, payload: seq<byte>, at: nat, ops: seq<T.Op>, t: nat)
    requires TxValid(tx) && 7 < |payload| <= MAX_PAYLOAD && NoStart(ops)
    ensures var fs := Handed(ep, Started(ep, tx, payload, at), ops);
            var after := T.ApplyAll(ep, Started(ep, tx, payload, at), ops);
            && |fs| <= CfCount(|payload|) && fs == Frames(ep.responseId, payload)[1..|fs| + 1]
            && (after.active ==> |payload| - after.offset == Max(0, |payload| - 6 - 7 * |fs|))
            && (T.Completes(ep, after, t) ==> 7 * (|fs| - 1) < |payload| - 6 <= 7 * |fs|)
  {
    var started := Started(ep, tx, payload, at);
    RunAdvances(ep, started, payload, 0, ops);
    var fs := Handed(ep, started, ops);
    PollAdvances(ep, T.ApplyAll(ep, started, ops), payload, |fs|, Clock(t));
    CfCountIsCeiling(|payload|);
  }

  /** An idle sender hands out nothing and completes nothing. */
  lemma {:induction false} IdleSendsNothing(ep: Endpoint, tx: TxState, ops: seq<T.Op>, t: nat)
    requires TxValid(tx) && !tx.active && NoStart(ops)
    ensures Handed(ep, tx, ops) == [] && !T.Completes(ep, T.ApplyAll(ep, tx, ops), t)
    decreases |ops|
  {
    if ops != [] {
      assert T.Apply(ep, tx, ops[0]) == tx && FrameOf(ep, tx, ops[0]) == [];
      IdleSendsNothing(ep, tx, ops[1..], t);
    }
  }

  /** Everything one transfer puts out: the frame of the start, then those handed out later. */
  function Output(ep: Endpoint, tx: TxState, payload: seq<byte>, at: nat, ops: seq<T.Op>): seq<CanFrame>
    requires TxValid(tx)
  {
    OneOrNone(TxStart(ep, tx, payload, Clock(at)).1.frame) + Handed(ep, Started(ep, tx, payload, at), ops)
  }

  /** For every payload the output is a prefix of the payload's frames, and all of them on completion. */
  lemma OutputIsPrefix(ep: Endpoint, tx: TxState, payload: seq<byte>, at: nat, ops: seq<T.Op>, t: nat)
    requires TxValid(tx) && 1 <= |payload| <= MAX_PAYLOAD && NoStart(ops)
    ensures var out := Output(ep, tx, payload, at, ops);
            && out != [] && out <= Frames(ep.responseId, payload)
            && (|payload| <= 7 || T.Completes(ep, T.ApplyAll(ep, Started(ep, tx, payload, at), ops), t) ==>
                  out == Frames(ep.responseId, payload))
  {
    var frames := Frames(ep.responseId, payload);
    var started := Started(ep, tx, payload, at);
    assert OneOrNone(TxStart(ep, tx, payload, Clock(at)).1.frame) == [frames[0]];
    if |payload| <= 7 {
      IdleSendsNothing(ep, started, ops, t);
    } else {
      SenderSendsPayload(ep, tx, payload, at, ops, t);
      CfCountIsCeiling(|payload|);
      var fs := Handed(ep, started, ops);
      assert [frames[0]] + frames[1..|fs| + 1] == frames[..|fs| + 1];
    }
  }
}
