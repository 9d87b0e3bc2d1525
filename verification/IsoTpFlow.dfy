/**
 * Flow control as the sender takes it: which frames let a transfer go on, which end it, which change nothing,
 * and how many frames go out between two of them.
 */
module IsoTpFlow {
  import opened Words
  import opened IsoTp
  import opened IsoTpTiming

  /** A flow-control frame of the peer, while one is waited for. */
  predicate Awaited(ep: Endpoint, tx: TxState, f: CanFrame) {
    && f.canId == ep.requestId && 3 <= f.dlc <= 8 && 0x30 <= f.data[0] <= 0x3F
    && tx.active && tx.waiting
  }

  /** Separation times that are reserved: 0x80 to 0xF0 and 0xFA to 0xFF. */
  predicate Reserved(stMin: byte) {
    0x80 <= stMin <= 0xF0 || stMin >= 0xFA
  }

  /** An awaited frame ends the transfer: overflow, a reserved separation time, or one WAIT too many. */
  predicate Fatal(ep: Endpoint, f: CanFrame, waits: nat) {
    || f.data[0] == 0x32
    || (f.data[0] < 0x32 && Reserved(f.data[2]))
    || (f.data[0] == 0x31 && waits >= ep.config.maxWaitFrames)
  }

  /**
   * After any run, a frame has one of five fates. A length over eight is an argument error, and another node's
   * frame is ignored. Clear to send and WAIT are accepted; an awaited frame that is not is a flow-control error,
   * and ends the transfer exactly if it is fatal; anything else from the peer is out of place. What is neither
   * accepted nor fatal changes nothing.
   */
  lemma FlowControlExactly(ep: Endpoint, ops: seq<Op>, f: CanFrame, at: nat)
    ensures var tx, op := Before(ep, ops), FlowControl(f, at);
            var (tx', status) := TxFeedFlowControl(ep, tx, f, Clock(at));
            var clear, wait := Accepts(ep, tx, op, 0), Accepts(ep, tx, op, 1);
            var fatal := Awaited(ep, tx, f) && Fatal(ep, f, WaitsSince(ep, ops));
            && (status == ErrArgument <==> f.dlc > 8)
            && (status == Ok <==> clear || wait || (f.dlc <= 8 && f.canId != ep.requestId))
            && (status == ErrFlowControl <==> Awaited(ep, tx, f) && !clear && !wait)
            && (status == ErrState <==> f.dlc <= 8 && f.canId == ep.requestId && !Awaited(ep, tx, f))
            && (tx.active && !tx'.active <==> fatal)
            && (clear <==> tx.waiting && !tx'.waiting && tx'.active)
            && (clear || wait ==> tx'.remoteBlockSize == f.data[1] && tx'.remoteStMin == f.data[2])
            && (clear || wait ==> tx'.payload == tx.payload && tx'.offset == tx.offset && tx'.active)
            && (!clear && !wait ==> tx' == if fatal then TX_RESET else tx)
  {
    WaitBudget(ep, ops);
  }

  // ------------------------------------------------------------------ blocks

  /** Frames handed out since the last clear-to-send. */
  ghost function SinceClear(ep: Endpoint, ops: seq<Op>): nat {
    if ops == [] then 0
    else
      var init, op := ops[..|ops| - 1], ops[|ops| - 1];
      if Accepts(ep, Before(ep, init), op, 0) then 0
      else if Emits(ep, Before(ep, init), op) then SinceClear(ep, init) + 1
      else SinceClear(ep, init)
  }

  /** The block count is the number of frames since, and a block that is not over has room for another. */
  predicate InBlock(tx: TxState, sent: nat) {
    tx.active && !tx.waiting ==>
      && tx.blockCount == sent % 256
      && (tx.remoteBlockSize != 0 && tx.offset < |tx.payload| ==> sent < tx.remoteBlockSize)
  }

  lemma StepKeepsBlock(ep: Endpoint, tx: TxState, op: Op, sent: nat)
    requires TxValid(tx) && InBlock(tx, sent)
    ensures InBlock(Apply(ep, tx, op),
                    if Accepts(ep, tx, op, 0) then 0 else if Emits(ep, tx, op) then sent + 1 else sent)
  {
  }

  lemma {:induction false} RunKeepsBlock(ep: Endpoint, ops: seq<Op>)
    ensures InBlock(Before(ep, ops), SinceClear(ep, ops))
  {
    if ops != [] {
      var init := ops[..|ops| - 1];
      RunKeepsBlock(ep, init);
      StepKeepsBlock(ep, Before(ep, init), ops[|ops| - 1], SinceClear(ep, init));
    }
  }

  lemma FrameEndsBlock(ep: Endpoint, tx: TxState, t: nat, sent: nat)
    requires TxValid(tx) && InBlock(tx, sent) && Emits(ep, tx, Next(t))
    ensures var tx' := Apply(ep, tx, Next(t));
            && (tx'.waiting <==> tx.remoteBlockSize != 0 && sent + 1 == tx.remoteBlockSize
                                 && tx'.offset < |tx.payload|)
            && tx'.remoteBlockSize == tx.remoteBlockSize
  {
  }

  /**
   * Blocks, over every run. Having handed out a frame, the sender waits for flow control exactly if the peer
   * set a block size, that many frames have now gone out since its last clear-to-send, and bytes are left.
   */
  lemma BlockEndsExactly(ep: Endpoint, ops: seq<Op>, t: nat)
    requires Emits(ep, Before(ep, ops), Next(t))
    ensures var tx, tx' := Before(ep, ops), Apply(ep, Before(ep, ops), Next(t));
            && (tx'.waiting <==> tx.remoteBlockSize != 0 && SinceClear(ep, ops) + 1 == tx.remoteBlockSize
                                 && tx'.offset < |tx.payload|)
            && tx'.remoteBlockSize == tx.remoteBlockSize
  {
    hide Before;
    hide SinceClear;
    hide Apply;
    RunKeepsBlock(ep, ops);
    FrameEndsBlock(ep, Before(ep, ops), t, SinceClear(ep, ops));
  }

  /**
   * Starting: exactly payloads of 1 to 4095 bytes are taken. Up to seven bytes go out at once and end whatever
   * was under way; more leave the sender waiting with six bytes sent. A refused payload changes nothing.
   */
  lemma StartExactly(ep: Endpoint, tx: TxState, payload: seq<byte>, now: u32)
    requires TxValid(tx)
    ensures var (tx', report) := TxStart(ep, tx, payload, now);
            && (report.status == TxFrameReady <==> 1 <= |payload| <= 4095)
            && (report.status == ErrArgument <==> payload == [])
            && (report.status == ErrOverflow <==> |payload| > 4095)
            && (report.frame.Some? <==> report.status == TxFrameReady)
            && (1 <= |payload| <= 7 ==> tx' == TX_RESET)
            && (8 <= |payload| <= 4095 ==>
                  tx'.active && tx'.waiting && tx'.payload == payload && tx'.offset == 6 && tx'.nextSequence == 1)
            && (report.status.IsError() ==> tx' == tx)
  {
  }
}
