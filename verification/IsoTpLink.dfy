/**
 * The closed loop: one sender and one receiver with crossed identifiers, joined by a FIFO of frames in
 * each direction. Any interleaving of the two nodes' calls is a run; every call carries its own clock
 * value. The main results hold for all runs in which no deadline expires.
 */
module IsoTpLink {
  import opened Words
  import opened IsoTp

  // ------------------------------------------------ the frames of a payload

  /** Number of consecutive frames after a first frame: the ceiling of (n - 6) / 7. */
  function CfCount(n: nat): nat {
    n / 7
  }

  /** Payload bytes carried by the first frame and the first `k` consecutive frames. */
  function Pos(n: nat, k: nat): nat {
    Min(n, 6 + 7 * k)
  }

  function FrameCount(n: nat): nat {
    if n <= 7 then 1 else 1 + CfCount(n)
  }

  /** The `k`-th frame that carries `payload`, written down independently of any sender state. */
  function FrameAt(id: u32, payload: seq<byte>, k: nat): CanFrame
    requires 1 <= |payload| <= MAX_PAYLOAD
    requires k < FrameCount(|payload|)
  {
    var n := |payload|;
    if n <= 7 then MakeFrame(id, [n] + payload)
    else if k == 0 then MakeFrame(id, [0x10 + n / 256, n % 256] + payload[..6])
    else MakeFrame(id, [0x20 + k % 16] + payload[Pos(n, k - 1)..Pos(n, k)])
  }

  function Frames(id: u32, payload: seq<byte>): (fs: seq<CanFrame>)
    requires 1 <= |payload| <= MAX_PAYLOAD
  {
    seq(FrameCount(|payload|), k requires 0 <= k < FrameCount(|payload|) => FrameAt(id, payload, k))
  }

  /** Consecutive frames number exactly ceil((n - 6) / 7), and only the last one reaches the end. */
  lemma CfCountIsCeiling(n: nat)
    requires n > 7
    ensures 7 * (CfCount(n) - 1) < n - 6 <= 7 * CfCount(n)
    ensures forall k: nat :: Pos(n, k) == n <==> k >= CfCount(n)
  {
  }

  lemma PosAdvances(n: nat, k: nat)
    requires n > 7 && k < CfCount(n)
    ensures Pos(n, k) < n && Pos(n, k + 1) == Pos(n, k) + Min(n - Pos(n, k), 7)
    ensures Pos(n, k + 1) < n <==> k + 1 < CfCount(n)
  {
  }

  // ------------------------------------------------------------- the system

  datatype Pair = Pair(sender: Endpoint, receiver: Endpoint) {
    ghost predicate Crossed() {
      && sender.requestId == receiver.responseId
      && sender.responseId == receiver.requestId
      && StMinOk(receiver.config.stMin)
    }
  }

  datatype Link = Link(tx: TxState, rx: RxState, toRx: seq<CanFrame>, toTx: seq<CanFrame>,
                       sent: seq<CanFrame>, delivered: seq<seq<byte>>, faults: seq<Status>)

  datatype Action =
    | SenderNext(now: u32) | SenderTick(now: u32) | FlowControlArrives(now: u32)
    | ReceiverTick(now: u32) | FrameArrives(now: u32)

  ghost predicate LinkValid(l: Link) {
    TxValid(l.tx) && RxValid(l.rx)
  }

  function Note(faults: seq<Status>, status: Status): seq<Status> {
    if status.IsError() then faults + [status] else faults
  }

  function OneOrNone<T>(o: Option<T>): seq<T> {
    if o.Some? then [o.value] else []
  }

  /** The receiver has consumed the oldest frame of its channel with this outcome. */
  function Received(l: Link, rx: RxState, report: RxReport): Link
    requires l.toRx != []
  {
    l.(rx := rx, toRx := l.toRx[1..], toTx := l.toTx + OneOrNone(report.flowControl),
       delivered := l.delivered + OneOrNone(report.payload), faults := Note(l.faults, report.status))
  }

  /** The sender was asked for its next frame, with this outcome. */
  function Polled(l: Link, tx: TxState, report: TxReport): Link {
    l.(tx := tx, toRx := l.toRx + OneOrNone(report.frame), sent := l.sent + OneOrNone(report.frame),
       faults := Note(l.faults, report.status))
  }

  function Step(p: Pair, l: Link, a: Action): (l': Link)
    requires LinkValid(l)
    ensures LinkValid(l')
  {
    match a
    case SenderNext(now) =>
      var (tx, report) := TxNext(p.sender, l.tx, now);
      Polled(l, tx, report)
    case SenderTick(now) =>
      var (tx, status) := TxTick(l.tx, now);
      l.(tx := tx, faults := Note(l.faults, status))
    case FlowControlArrives(now) =>
      if l.toTx == [] then l
      else
        var (tx, status) := TxFeedFlowControl(p.sender, l.tx, l.toTx[0], now);
        l.(tx := tx, toTx := l.toTx[1..], faults := Note(l.faults, status))
    case ReceiverTick(now) =>
      var (rx, status) := RxTick(l.rx, now);
      l.(rx := rx, faults := Note(l.faults, status))
    case FrameArrives(now) =>
      if l.toRx == [] then l
      else
        var (rx, report) := RxFeed(p.receiver, l.rx, l.toRx[0], now);
        Received(l, rx, report)
  }

  /** The call made by this action would find its deadline in the past. */
  predicate TimesOut(l: Link, a: Action) {
    match a
    case SenderNext(now) => l.tx.active && !l.tx.waiting && Expired(now, l.tx.deadlineMs)
    case SenderTick(now) => l.tx.active && Expired(now, l.tx.deadlineMs)
    case ReceiverTick(now) => l.rx.active && Expired(now, l.rx.deadlineMs)
    case _ => false
  }

  function Run(p: Pair, l: Link, actions: seq<Action>): (l': Link)
    requires LinkValid(l)
    ensures LinkValid(l')
    decreases |actions|
  {
    if actions == [] then l else Run(p, Step(p, l, actions[0]), actions[1..])
  }

  predicate Timely(p: Pair, l: Link, actions: seq<Action>)
    requires LinkValid(l)
    decreases |actions|
  {
    actions == [] || (!TimesOut(l, actions[0]) && Timely(p, Step(p, l, actions[0]), actions[1..]))
  }

  /** The system right after `isotp_tx_start`, whatever both sides were doing before. */
  function Begin(p: Pair, tx: TxState, rx: RxState, payload: seq<byte>, now: u32): (l: Link)
    requires TxValid(tx) && RxValid(rx)
    ensures LinkValid(l)
  {
    var (tx', report) := TxStart(p.sender, tx, payload, now);
    var out := OneOrNone(report.frame);
    Link(tx', rx, out, [], out, [], Note([], report.status))
  }

  /** Nothing in flight and the sender idle again. */
  predicate Quiet(l: Link) {
    !l.tx.active && l.toRx == [] && l.toTx == []
  }

  // -------------------------------------------------------------- invariant

  /** How far a transfer has come: consecutive frames sent, received, and granted by flow control. */
  datatype Phase = Opening | Single | Streaming(sent: nat, got: nat, base: nat) | Done

  ghost predicate Inv(p: Pair, l: Link, payload: seq<byte>, ph: Phase)
    requires 1 <= |payload| <= MAX_PAYLOAD
  {
    var frames := Frames(p.sender.responseId, payload);
    && LinkValid(l)
    && l.faults == []
    && match ph
       case Single =>
         |payload| <= 7 && !l.tx.active && l.toRx == l.sent == frames && l.toTx == [] && l.delivered == []
       case Opening =>
         && |payload| > 7
         && l.toRx == l.sent == frames[..1] && l.toTx == [] && l.delivered == []
         && SenderAt(l.tx, payload, 0) && l.tx.waiting
       case Streaming(s, r, b) =>
         |payload| > 7 && s <= CfCount(|payload|) && r <= s && StreamInv(p, l, payload, s, r, b)
       case Done =>
         !l.tx.active && !l.rx.active && l.toRx == l.toTx == [] && l.sent == frames && l.delivered == [payload]
  }

  ghost predicate SenderAt(tx: TxState, payload: seq<byte>, s: nat) {
    && tx.active && tx.payload == payload
    && tx.offset == Pos(|payload|, s)
    && tx.nextSequence == (s + 1) % 16
  }

  ghost predicate ReceiverAt(rx: RxState, payload: seq<byte>, r: nat) {
    && rx.active && rx.expectedLen == |payload|
    && rx.received == payload[..Pos(|payload|, r)]
    && rx.nextSequence == (r + 1) % 16
  }

  ghost predicate StreamInv(p: Pair, l: Link, payload: seq<byte>, s: nat, r: nat, b: nat)
    requires 7 < |payload| <= MAX_PAYLOAD
    requires r <= s <= CfCount(|payload|)
  {
    var frames := Frames(p.sender.responseId, payload);
    var blockSize := p.receiver.config.blockSize;
    var last := CfCount(|payload|);
    && b <= r
    && l.sent == frames[..s + 1] && l.toRx == frames[r + 1..s + 1]
    && (r < last ==> ReceiverAt(l.rx, payload, r) && l.delivered == [])
    && (r == last ==> !l.rx.active && l.delivered == [payload])
    && (r < last && blockSize != 0 ==> l.rx.blockCount == r - b)
    && (l.tx.active ==> SenderAt(l.tx, payload, s))
    && if l.tx.active && l.tx.waiting then
         && s < last
         && (if r == s then b == r && l.toTx == [ClearToSend(p.receiver)]
             else blockSize != 0 && s == b + blockSize && l.toTx == [])
       else
         && l.toTx == []
         && (blockSize != 0 ==> s - b <= blockSize && (s == b + blockSize ==> s == last))
         && (l.tx.active ==> Sending(p, l.tx, s - b))
         && (!l.tx.active ==> s == last)
  }

  /** An unblocked sender, `count` frames into the current block. */
  ghost predicate Sending(p: Pair, tx: TxState, count: int) {
    && tx.remoteBlockSize == p.receiver.config.blockSize && tx.remoteStMin == p.receiver.config.stMin
    && (tx.remoteBlockSize != 0 ==> tx.blockCount == count)
    && (|| tx.deadlineMs == Add32(tx.nextFrameMs, p.sender.config.txTimeoutMs)
        || Add32(tx.deadlineMs, StMinToMs(tx.remoteStMin)) == Add32(tx.nextFrameMs, p.sender.config.txTimeoutMs))
  }

  lemma BeginInv(p: Pair, tx: TxState, rx: RxState, payload: seq<byte>, now: u32) returns (ph: Phase)
    requires TxValid(tx) && RxValid(rx)
    requires 1 <= |payload| <= MAX_PAYLOAD
    ensures Inv(p, Begin(p, tx, rx, payload, now), payload, ph)
  {
    ph := if |payload| <= 7 then Single else Opening;
  }

  lemma FirstFrameArrives(p: Pair, l: Link, payload: seq<byte>, now: u32)
    requires p.Crossed() && 1 <= |payload| <= MAX_PAYLOAD && Inv(p, l, payload, Opening)
    ensures Inv(p, Step(p, l, FrameArrives(now)), payload, Streaming(0, 0, 0))
  {
    var f := l.toRx[0];
    assert f == FrameAt(p.sender.responseId, payload, 0);
    assert f.data[2..8] == payload[..6];
  }

  lemma SingleFrameArrives(p: Pair, l: Link, payload: seq<byte>, now: u32)
    requires p.Crossed() && 1 <= |payload| <= MAX_PAYLOAD && Inv(p, l, payload, Single)
    ensures Inv(p, Step(p, l, FrameArrives(now)), payload, Done)
  {
    var f := l.toRx[0];
    assert f == FrameAt(p.sender.responseId, payload, 0);
    assert f.data[1..1 + |payload|] == payload;
  }

  lemma SequenceFollows(r: nat)
    ensures ((r + 1) % 16 + 1) % 16 == (r + 2) % 16
  {
  }

  /** A consecutive frame with the next bytes of the payload extends the received prefix. */
  lemma ReceiverTakes(ep: Endpoint, rx: RxState, payload: seq<byte>, r: nat, f: CanFrame, now: u32)
    requires 7 < |payload| <= MAX_PAYLOAD && r < CfCount(|payload|) && RxValid(rx) && ReceiverAt(rx, payload, r)
    requires 1 <= f.dlc <= 8 && f.data[0] % 16 == rx.nextSequence
    requires Pos(|payload|, r) + f.dlc - 1 == Pos(|payload|, r + 1)
    requires f.data[1..f.dlc] == payload[Pos(|payload|, r)..Pos(|payload|, r + 1)]
    ensures var (rx', report) := FeedConsecutive(ep, rx, f, now); Advanced(ep, rx, payload, r, rx', report)
  {
    PosAdvances(|payload|, r);
    SequenceFollows(r);
    var from, to := Pos(|payload|, r), Pos(|payload|, r + 1);
    assert payload[..from] + payload[from..to] == payload[..to];
    assert payload[..|payload|] == payload;
  }

  /** The receiver's half of one step: the next frame on the wire is such a frame. */
  lemma ReceiverAdvances(ep: Endpoint, rx: RxState, payload: seq<byte>, r: nat, f: CanFrame, now: u32)
    requires 7 < |payload| <= MAX_PAYLOAD && r < CfCount(|payload|) && RxValid(rx) && ReceiverAt(rx, payload, r)
    requires f == FrameAt(ep.requestId, payload, r + 1)
    ensures RxFeed(ep, rx, f, now) == FeedConsecutive(ep, rx, f, now)
    ensures var (rx', report) := FeedConsecutive(ep, rx, f, now); Advanced(ep, rx, payload, r, rx', report)
  {
    var n := |payload|;
    PosAdvances(n, r);
    var chunk := payload[Pos(n, r)..Pos(n, r + 1)];
    assert f.data[1..1 + |chunk|] == chunk;
    ReceiverTakes(ep, rx, payload, r, f, now);
  }

  ghost predicate Advanced(ep: Endpoint, rx: RxState, payload: seq<byte>, r: nat, rx': RxState, report: RxReport) {
    var count := (rx.blockCount + 1) % 256;
    && RxValid(rx')
    && if r + 1 == CfCount(|payload|) then
         !rx'.active && report == RxReport(Complete, Some(payload), None)
       else
         && ReceiverAt(rx', payload, r + 1)
         && if ep.config.blockSize != 0 && count >= ep.config.blockSize then
              rx'.blockCount == 0 && report == RxReport(NeedFlowControl, None, Some(ClearToSend(ep)))
            else
              rx'.blockCount == count && report == Plain(Ok)
  }

  /** Where the block base lies after the receiver has its `r`-th consecutive frame. */
  function NextBase(blockSize: byte, payload: seq<byte>, r: nat, b: nat): nat {
    if r < CfCount(|payload|) && blockSize != 0 && r == b + blockSize then r else b
  }

  /** The last frame: the payload is delivered and the receiver is done. */
  lemma LastAdvances(p: Pair, l: Link, payload: seq<byte>, s: nat, r: nat, b: nat, rx: RxState, report: RxReport)
    requires 7 < |payload| <= MAX_PAYLOAD && LinkValid(l) && r < s <= CfCount(|payload|)
    requires StreamInv(p, l, payload, s, r, b)
    requires Advanced(p.receiver, l.rx, payload, r, rx, report)
    requires r + 1 == CfCount(|payload|)
    ensures StreamInv(p, Received(l, rx, report), payload, s, r + 1,
                      NextBase(p.receiver.config.blockSize, payload, r + 1, b))
  {
    RestOfStretch(Frames(p.sender.responseId, payload), r + 1, s + 1);
  }

  /** The last frame of a block that is not the last: flow control goes out. */
  lemma BlockEndAdvances(p: Pair, l: Link, payload: seq<byte>, s: nat, r: nat, b: nat, rx: RxState, report: RxReport)
    requires 7 < |payload| <= MAX_PAYLOAD && LinkValid(l) && r < s <= CfCount(|payload|)
    requires StreamInv(p, l, payload, s, r, b)
    requires Advanced(p.receiver, l.rx, payload, r, rx, report)
    requires r + 1 < CfCount(|payload|) && p.receiver.config.blockSize != 0 && r + 1 == b + p.receiver.config.blockSize
    ensures StreamInv(p, Received(l, rx, report), payload, s, r + 1,
                      NextBase(p.receiver.config.blockSize, payload, r + 1, b))
  {
    RestOfStretch(Frames(p.sender.responseId, payload), r + 1, s + 1);
  }

  /** Any other frame. */
  lemma WithinBlockAdvances(p: Pair, l: Link, payload: seq<byte>, s: nat, r: nat, b: nat, rx: RxState, report: RxReport)
    requires 7 < |payload| <= MAX_PAYLOAD && LinkValid(l) && r < s <= CfCount(|payload|)
    requires StreamInv(p, l, payload, s, r, b)
    requires Advanced(p.receiver, l.rx, payload, r, rx, report)
    requires r + 1 < CfCount(|payload|)
    requires p.receiver.config.blockSize != 0 ==> r + 1 < b + p.receiver.config.blockSize
    ensures StreamInv(p, Received(l, rx, report), payload, s, r + 1,
                      NextBase(p.receiver.config.blockSize, payload, r + 1, b))
  {
    RestOfStretch(Frames(p.sender.responseId, payload), r + 1, s + 1);
  }

  lemma AdvancedKeepsInv(p: Pair, l: Link, payload: seq<byte>, s: nat, r: nat, b: nat, rx: RxState, report: RxReport)
    requires 7 < |payload| <= MAX_PAYLOAD && LinkValid(l) && l.faults == [] && r < s <= CfCount(|payload|)
    requires StreamInv(p, l, payload, s, r, b)
    requires Advanced(p.receiver, l.rx, payload, r, rx, report)
    ensures var l' := Received(l, rx, report);
            && LinkValid(l') && l'.faults == []
            && StreamInv(p, l', payload, s, r + 1, NextBase(p.receiver.config.blockSize, payload, r + 1, b))
  {
    var blockSize := p.receiver.config.blockSize;
    if r + 1 == CfCount(|payload|) {
      LastAdvances(p, l, payload, s, r, b, rx, report);
    } else if blockSize != 0 && r + 1 == b + blockSize {
      BlockEndAdvances(p, l, payload, s, r, b, rx, report);
    } else {
      BlockIsOpen(p, l, payload, s, r, b);
      WithinBlockAdvances(p, l, payload, s, r, b, rx, report);
    }
  }

  lemma BlockIsOpen(p: Pair, l: Link, payload: seq<byte>, s: nat, r: nat, b: nat)
    requires 7 < |payload| <= MAX_PAYLOAD && r < s <= CfCount(|payload|) && StreamInv(p, l, payload, s, r, b)
    ensures p.receiver.config.blockSize != 0 ==> r + 1 <= b + p.receiver.config.blockSize
  {
  }

  lemma RestOfStretch(frames: seq<CanFrame>, from: nat, to: nat)
    requires from < to <= |frames|
    ensures frames[from..to][1..] == frames[from + 1..to]
  {
  }

  lemma ConsecutiveFrameArrives(p: Pair, l: Link, payload: seq<byte>, s: nat, r: nat, b: nat, now: u32)
    returns (ph: Phase)
    requires p.Crossed() && 1 <= |payload| <= MAX_PAYLOAD && Inv(p, l, payload, Streaming(s, r, b)) && r < s
    ensures Inv(p, Step(p, l, FrameArrives(now)), payload, ph)
    ensures ph.Streaming? && ph.sent == s && ph.got == r + 1
  {
    assert l.toRx[0] == Frames(p.sender.responseId, payload)[r + 1];
    ReceiverAdvances(p.receiver, l.rx, payload, r, l.toRx[0], now);
    var (rx, report) := FeedConsecutive(p.receiver, l.rx, l.toRx[0], now);
    AdvancedKeepsInv(p, l, payload, s, r, b, rx, report);
    ph := Streaming(s, r + 1, NextBase(p.receiver.config.blockSize, payload, r + 1, b));
  }

  lemma FlowControlIsTaken(p: Pair, l: Link, payload: seq<byte>, s: nat, r: nat, b: nat, now: u32)
    requires p.Crossed() && 1 <= |payload| <= MAX_PAYLOAD && Inv(p, l, payload, Streaming(s, r, b)) && l.toTx != []
    ensures Inv(p, Step(p, l, FlowControlArrives(now)), payload, Streaming(s, r, b))
    ensures !Step(p, l, FlowControlArrives(now)).tx.waiting
  {
    var f := l.toTx[0];
    assert f.data[0] == 0x30 && f.data[1] == p.receiver.config.blockSize && f.data[2] == p.receiver.config.stMin;
  }

  lemma DeadlineFollows(now: u32, timeout: u32, gap: u32)
    ensures Add32(Add32(now, timeout), gap) == Add32(Add32(now, gap), timeout)
  {
  }

  /** The sender's half of one step: an unblocked sender emits the next frame of the payload. */
  lemma SenderEmits(ep: Endpoint, tx: TxState, payload: seq<byte>, s: nat, now: u32)
    requires 7 < |payload| <= MAX_PAYLOAD && s < CfCount(|payload|) && TxValid(tx) && SenderAt(tx, payload, s)
    ensures tx.offset < |tx.payload|
    ensures var (tx', f) := TxEmit(ep, tx, now);
            f == FrameAt(ep.responseId, payload, s + 1) && SenderAt(tx', payload, s + 1)
  {
    PosAdvances(|payload|, s);
    assert (tx.nextSequence + 1) % 16 == (s + 1 + 1) % 16;
  }

  ghost predicate Emitted(p: Pair, tx: TxState, payload: seq<byte>, s: nat, count: nat, tx': TxState) {
    && tx'.waiting == (tx.remoteBlockSize != 0 && count + 1 == tx.remoteBlockSize && s + 1 < CfCount(|payload|))
    && (!tx'.waiting ==> Sending(p, tx', count + 1))
  }

  lemma SenderKeepsPace(p: Pair, tx: TxState, payload: seq<byte>, s: nat, count: nat, now: u32)
    requires 7 < |payload| <= MAX_PAYLOAD && s < CfCount(|payload|)
    requires TxValid(tx) && SenderAt(tx, payload, s) && Sending(p, tx, count)
    requires tx.remoteBlockSize != 0 ==> count < tx.remoteBlockSize
    requires tx.offset < |tx.payload|
    ensures Emitted(p, tx, payload, s, count, TxEmit(p.sender, tx, now).0)
  {
    PosAdvances(|payload|, s);
    DeadlineFollows(now, p.sender.config.txTimeoutMs, StMinToMs(tx.remoteStMin));
  }

  lemma EmittedKeepsInv(p: Pair, l: Link, payload: seq<byte>, s: nat, r: nat, b: nat, tx: TxState, f: CanFrame)
    requires 7 < |payload| <= MAX_PAYLOAD && LinkValid(l) && l.faults == [] && r <= s < CfCount(|payload|)
    requires StreamInv(p, l, payload, s, r, b) && l.tx.active && !l.tx.waiting
    requires f == FrameAt(p.sender.responseId, payload, s + 1)
    requires TxValid(tx) && SenderAt(tx, payload, s + 1) && Emitted(p, l.tx, payload, s, s - b, tx)
    ensures var l' := Polled(l, tx, TxReport(TxFrameReady, Some(f)));
            LinkValid(l') && l'.faults == [] && StreamInv(p, l', payload, s + 1, r, b)
  {
    var frames := Frames(p.sender.responseId, payload);
    assert frames[..s + 1] + [f] == frames[..s + 2];
    assert frames[r + 1..s + 1] + [f] == frames[r + 1..s + 2];
  }

  /** The sender is free to emit at `now`. */
  predicate Ready(tx: TxState, now: u32) {
    tx.active && !tx.waiting && !Expired(now, tx.deadlineMs) && Expired(now, tx.nextFrameMs)
  }

  lemma SenderSends(p: Pair, l: Link, payload: seq<byte>, s: nat, r: nat, b: nat, now: u32)
    requires 7 < |payload| <= MAX_PAYLOAD && LinkValid(l) && l.faults == [] && r <= s < CfCount(|payload|)
    requires StreamInv(p, l, payload, s, r, b) && Ready(l.tx, now)
    ensures var l' := Step(p, l, SenderNext(now)); l'.faults == [] && StreamInv(p, l', payload, s + 1, r, b)
  {
    SenderEmits(p.sender, l.tx, payload, s, now);
    SenderKeepsPace(p, l.tx, payload, s, s - b, now);
    var (tx, f) := TxEmit(p.sender, l.tx, now);
    EmittedKeepsInv(p, l, payload, s, r, b, tx, f);
  }

  /** After the last frame the next call reports completion and resets the sender. */
  lemma SenderFinishes(p: Pair, l: Link, payload: seq<byte>, s: nat, r: nat, b: nat, now: u32)
    requires 7 < |payload| <= MAX_PAYLOAD && LinkValid(l) && l.faults == [] && r <= s == CfCount(|payload|)
    requires StreamInv(p, l, payload, s, r, b) && Ready(l.tx, now)
    ensures var l' := Step(p, l, SenderNext(now));
            l'.faults == [] && !l'.tx.active && l'.toRx == l.toRx && StreamInv(p, l', payload, s, r, b)
  {
    CfCountIsCeiling(|payload|);
    assert Step(p, l, SenderNext(now)) == l.(tx := TX_RESET);
  }

  lemma SenderProceeds(p: Pair, l: Link, payload: seq<byte>, s: nat, r: nat, b: nat, now: u32) returns (ph: Phase)
    requires p.Crossed() && 1 <= |payload| <= MAX_PAYLOAD && Inv(p, l, payload, Streaming(s, r, b))
    requires !TimesOut(l, SenderNext(now))
    ensures Inv(p, Step(p, l, SenderNext(now)), payload, ph)
    ensures Step(p, l, SenderNext(now)) == l
         || ph == Streaming(s + 1, r, b)
         || (ph == Streaming(s, r, b) && l.tx.active && !Step(p, l, SenderNext(now)).tx.active)
  {
    if !Ready(l.tx, now) {
      assert Step(p, l, SenderNext(now)) == l;
      ph := Streaming(s, r, b);
    } else if s < CfCount(|payload|) {
      SenderSends(p, l, payload, s, r, b, now);
      ph := Streaming(s + 1, r, b);
    } else {
      SenderFinishes(p, l, payload, s, r, b, now);
      ph := Streaming(s, r, b);
    }
  }

  // ------------------------------------------------------------ main results

  /** Calls still to be made before the link is quiet. */
  ghost function Remaining(l: Link, payload: seq<byte>, ph: Phase): int {
    var last := CfCount(|payload|);
    match ph
    case Opening => 4 * last + 4
    case Single => 1
    case Streaming(s, r, _) =>
      4 * (last - s) + 2 * (s - r) + (if l.tx.active then 1 else 0) + (if l.tx.active && l.tx.waiting then 1 else 0)
    case Done => 0
  }

  /** The step changed nothing, or brought the end nearer. */
  ghost predicate Nearer(l: Link, ph: Phase, l': Link, ph': Phase, payload: seq<byte>) {
    l' == l || Remaining(l', payload, ph') < Remaining(l, payload, ph)
  }

  lemma ArrivalKeepsInv(p: Pair, l: Link, payload: seq<byte>, ph: Phase, now: u32) returns (ph': Phase)
    requires p.Crossed() && 1 <= |payload| <= MAX_PAYLOAD && Inv(p, l, payload, ph)
    ensures Inv(p, Step(p, l, FrameArrives(now)), payload, ph')
    ensures Nearer(l, ph, Step(p, l, FrameArrives(now)), ph', payload)
  {
    ph' := ph;
    match ph {
      case Opening => FirstFrameArrives(p, l, payload, now); ph' := Streaming(0, 0, 0);
      case Single => SingleFrameArrives(p, l, payload, now); ph' := Done;
      case Streaming(s, r, b) =>
        if r < s {
          ph' := ConsecutiveFrameArrives(p, l, payload, s, r, b, now);
        } else {
          assert l.toRx == [];
        }
      case Done =>
    }
  }

  lemma FlowControlKeepsInv(p: Pair, l: Link, payload: seq<byte>, ph: Phase, now: u32)
    requires p.Crossed() && 1 <= |payload| <= MAX_PAYLOAD && Inv(p, l, payload, ph)
    ensures Inv(p, Step(p, l, FlowControlArrives(now)), payload, ph)
    ensures Nearer(l, ph, Step(p, l, FlowControlArrives(now)), ph, payload)
  {
    if l.toTx != [] {
      FlowControlIsTaken(p, l, payload, ph.sent, ph.got, ph.base, now);
    } else {
      assert Step(p, l, FlowControlArrives(now)) == l;
    }
  }

  lemma SendKeepsInv(p: Pair, l: Link, payload: seq<byte>, ph: Phase, now: u32) returns (ph': Phase)
    requires p.Crossed() && 1 <= |payload| <= MAX_PAYLOAD && Inv(p, l, payload, ph) && !TimesOut(l, SenderNext(now))
    ensures Inv(p, Step(p, l, SenderNext(now)), payload, ph')
    ensures Nearer(l, ph, Step(p, l, SenderNext(now)), ph', payload)
  {
    ph' := ph;
    if ph.Streaming? {
      ph' := SenderProceeds(p, l, payload, ph.sent, ph.got, ph.base, now);
    } else {
      assert Step(p, l, SenderNext(now)) == l;
    }
  }

  /** One timely call keeps the invariant, and either changes nothing or brings the end nearer. */
  lemma StepKeepsInv(p: Pair, l: Link, payload: seq<byte>, ph: Phase, a: Action) returns (ph': Phase)
    requires p.Crossed() && 1 <= |payload| <= MAX_PAYLOAD && Inv(p, l, payload, ph) && !TimesOut(l, a)
    ensures Inv(p, Step(p, l, a), payload, ph')
    ensures Step(p, l, a) == l || Remaining(Step(p, l, a), payload, ph') < Remaining(l, payload, ph)
  {
    ph' := ph;
    match a {
      case FrameArrives(now) => ph' := ArrivalKeepsInv(p, l, payload, ph, now);
      case FlowControlArrives(now) => FlowControlKeepsInv(p, l, payload, ph, now);
      case SenderNext(now) => ph' := SendKeepsInv(p, l, payload, ph, now);
      case _ => assert Step(p, l, a) == l;
    }
  }

  lemma {:induction false} RunKeepsInv(p: Pair, l: Link, payload: seq<byte>, ph: Phase, actions: seq<Action>)
    returns (ph': Phase)
    requires p.Crossed() && 1 <= |payload| <= MAX_PAYLOAD && Inv(p, l, payload, ph) && Timely(p, l, actions)
    ensures Inv(p, Run(p, l, actions), payload, ph')
    decreases |actions|
  {
    ph' := ph;
    if actions != [] {
      var next := StepKeepsInv(p, l, payload, ph, actions[0]);
      ph' := RunKeepsInv(p, Step(p, l, actions[0]), payload, next, actions[1..]);
    }
  }

  /**
   * Closed-loop delivery. Whatever the two nodes did before, whatever the payload length, block size and
   * separation time, and however the calls interleave: no call reports an error, the frames on the wire
   * are the payload's frames in order, the payload is delivered once, with its last frame, and a link
   * that has become quiet has delivered it.
   */
  lemma ClosedLoopDelivers(p: Pair, tx: TxState, rx: RxState, payload: seq<byte>, now: u32, actions: seq<Action>)
    requires p.Crossed() && TxValid(tx) && RxValid(rx) && 1 <= |payload| <= MAX_PAYLOAD
    requires Timely(p, Begin(p, tx, rx, payload, now), actions)
    ensures var l := Run(p, Begin(p, tx, rx, payload, now), actions);
            var frames := Frames(p.sender.responseId, payload);
            && l.faults == []
            && l.sent <= frames
            && l.delivered == (if |l.sent| - |l.toRx| == |frames| then [payload] else [])
            && (Quiet(l) ==> l.sent == frames && l.delivered == [payload])
  {
    var ph := BeginInv(p, tx, rx, payload, now);
    ph := RunKeepsInv(p, Begin(p, tx, rx, payload, now), payload, ph, actions);
  }

  /**
   * Flow-control lockstep. Once the first frame has arrived, the sender is blocked with nothing left in
   * flight towards the receiver exactly when one flow-control frame is on its way back.
   */
  lemma FlowControlLockstep(p: Pair, tx: TxState, rx: RxState, payload: seq<byte>, now: u32, actions: seq<Action>)
    requires p.Crossed() && TxValid(tx) && RxValid(rx) && 1 <= |payload| <= MAX_PAYLOAD
    requires Timely(p, Begin(p, tx, rx, payload, now), actions)
    ensures var l := Run(p, Begin(p, tx, rx, payload, now), actions);
            && (l.toTx != [] <==> l.tx.active && l.tx.waiting && l.toRx == [])
            && (l.toTx == [] || l.toTx == [ClearToSend(p.receiver)])
  {
    var ph := BeginInv(p, tx, rx, payload, now);
    ph := RunKeepsInv(p, Begin(p, tx, rx, payload, now), payload, ph, actions);
  }

  /** An unblocked sender may always be called at the very millisecond its next frame falls due. */
  lemma DueSenderIsReady(p: Pair, tx: TxState, count: int)
    requires Sending(p, tx, count) && tx.active && !tx.waiting
    requires StMinToMs(tx.remoteStMin) < p.sender.config.txTimeoutMs <= TWO_31
    ensures Ready(tx, tx.nextFrameMs)
  {
  }

  lemma ReadySenderMoves(p: Pair, l: Link, now: u32)
    requires LinkValid(l) && Ready(l.tx, now)
    ensures Step(p, l, SenderNext(now)) != l
  {
    if l.tx.offset < |l.tx.payload| {
      assert |Step(p, l, SenderNext(now)).sent| == |l.sent| + 1;
    }
  }

  lemma RemainingIsNat(p: Pair, l: Link, payload: seq<byte>, ph: Phase)
    requires 1 <= |payload| <= MAX_PAYLOAD && Inv(p, l, payload, ph)
    ensures 0 <= Remaining(l, payload, ph) <= 4 * CfCount(|payload|) + 4
  {
  }

  // ------------------------------------------------------------ moving on

  /** Calls made at instants that never go back, from `t` on; each side sees the 32-bit clock. */
  ghost predicate Forward(actions: seq<Action>, t: nat, at: seq<nat>)
    decreases |actions|
  {
    && |at| == |actions|
    && (actions == [] || (t <= at[0] && actions[0].now == Clock(at[0]) && Forward(actions[1..], at[0], at[1..])))
  }

  /** At instant `t` no deadline of an unblocked sender has passed. */
  predicate InTime(tx: TxState, t: nat) {
    tx.active && !tx.waiting ==> !Expired(Clock(t), tx.deadlineMs)
  }

  lemma FreshDeadline(now: u32, timeout: u32)
    requires 1 <= timeout <= TWO_31
    ensures !Expired(now, Add32(now, timeout))
  {
  }

  lemma ClockReaches(t: nat, target: u32)
    ensures Clock(t + Sub32(target, Clock(t))) == target
  {
    var q, d := t / TWO_32, Sub32(target, Clock(t));
    assert t + d == TWO_32 * q + (Clock(t) + d);
    if Clock(t) + d >= TWO_32 {
      assert t + d == TWO_32 * (q + 1) + target;
    }
  }

  /** A sender that is in time will be ready, now or when its next frame falls due. */
  lemma SenderWillBeReady(p: Pair, tx: TxState, count: int, t: nat) returns (t': nat)
    requires Sending(p, tx, count) && tx.active && !tx.waiting && InTime(tx, t)
    requires StMinToMs(tx.remoteStMin) < p.sender.config.txTimeoutMs <= TWO_31
    ensures t <= t' && Ready(tx, Clock(t'))
    ensures t' == if Expired(Clock(t), tx.nextFrameMs) then t else t + Sub32(tx.nextFrameMs, Clock(t))
  {
    if Expired(Clock(t), tx.nextFrameMs) {
      t' := t;
    } else {
      t' := t + Sub32(tx.nextFrameMs, Clock(t));
      ClockReaches(t, tx.nextFrameMs);
      DueSenderIsReady(p, tx, count);
    }
  }

  lemma ReadySenderStaysInTime(p: Pair, l: Link, t: nat)
    requires LinkValid(l) && Ready(l.tx, Clock(t)) && 1 <= p.sender.config.txTimeoutMs <= TWO_31
    ensures InTime(Step(p, l, SenderNext(Clock(t))).tx, t)
  {
    FreshDeadline(Clock(t), p.sender.config.txTimeoutMs);
  }

  lemma FlowControlStaysInTime(p: Pair, l: Link, t: nat)
    requires LinkValid(l) && l.toTx != [] && InTime(l.tx, t) && 1 <= p.sender.config.txTimeoutMs <= TWO_31
    ensures InTime(Step(p, l, FlowControlArrives(Clock(t))).tx, t)
  {
    FreshDeadline(Clock(t), p.sender.config.txTimeoutMs);
  }

  // ------------------------------------------------------- timers on both sides

  /** A tick of either side at instant `t` reports no time-out. */
  predicate TicksPass(l: Link, t: nat) {
    !TimesOut(l, SenderTick(Clock(t))) && !TimesOut(l, ReceiverTick(Clock(t)))
  }

  /** The sender has nothing to wait for but its own next frame, which is not due yet. */
  predicate Pausing(l: Link, t: nat) {
    l.tx.active && !l.tx.waiting && !Expired(Clock(t), l.tx.nextFrameMs)
  }

  /**
   * Both sides are on time at `t`: no deadline has passed; a sender that pauses pauses no longer than the
   * separation time; and if nothing is under way to the receiver, its deadline lies beyond that pause.
   */
  predicate OnTime(l: Link, t: nat) {
    && TicksPass(l, t)
    && (Pausing(l, t) ==> Sub32(l.tx.nextFrameMs, Clock(t)) <= StMinToMs(l.tx.remoteStMin))
    && (Pausing(l, t) && l.rx.active && l.toRx == [] ==> !Expired(l.tx.nextFrameMs, l.rx.deadlineMs))
  }

  /** Both time-outs exceed the separation time. */
  predicate Patient(p: Pair) {
    && StMinToMs(p.receiver.config.stMin) < p.sender.config.txTimeoutMs <= TWO_31
    && StMinToMs(p.receiver.config.stMin) < p.receiver.config.rxTimeoutMs <= TWO_31
  }

  /** Good frames renew the receiver's deadline. */
  lemma FeedRenews(ep: Endpoint, rx: RxState, f: CanFrame, now: u32)
    requires RxValid(rx) && f.canId == ep.requestId && !RxFeed(ep, rx, f, now).1.status.IsError()
    ensures var rx' := RxFeed(ep, rx, f, now).0; rx'.active ==> rx'.deadlineMs == Add32(now, ep.config.rxTimeoutMs)
  {
  }

  /** A pause of at most `gap` from now on ends before a deadline that was renewed now. */
  lemma PauseEndsFirst(now: u32, next: u32, gap: u32, timeout: u32)
    requires Sub32(next, now) <= gap < timeout <= TWO_31
    ensures !Expired(next, Add32(now, timeout))
  {
  }

  lemma NoFaultNoted(faults: seq<Status>, status: Status)
    requires faults == [] && Note(faults, status) == []
    ensures !status.IsError()
  {
  }

  lemma NextIsAddressed(p: Pair, l: Link, payload: seq<byte>, ph: Phase)
    requires p.Crossed() && 1 <= |payload| <= MAX_PAYLOAD && Inv(p, l, payload, ph) && l.toRx != []
    ensures l.toRx[0].canId == p.receiver.requestId
  {
    if ph.Streaming? {
      assert l.toRx[0] == Frames(p.sender.responseId, payload)[ph.got + 1];
    } else {
      assert l.toRx[0] == Frames(p.sender.responseId, payload)[0];
    }
  }

  lemma ReceivedOnTime(p: Pair, l: Link, rx: RxState, report: RxReport, t: nat)
    requires Patient(p) && OnTime(l, t) && l.toRx != []
    requires l.tx.active && !l.tx.waiting ==> l.tx.remoteStMin == p.receiver.config.stMin
    requires rx.active ==> rx.deadlineMs == Add32(Clock(t), p.receiver.config.rxTimeoutMs)
    ensures OnTime(Received(l, rx, report), t)
  {
    FreshDeadline(Clock(t), p.receiver.config.rxTimeoutMs);
    if Pausing(l, t) {
      PauseEndsFirst(Clock(t), l.tx.nextFrameMs, StMinToMs(l.tx.remoteStMin), p.receiver.config.rxTimeoutMs);
    }
  }

  /** What the sender knows of the receiver once it is unblocked. */
  lemma UnblockedKnowsPeer(p: Pair, l: Link, payload: seq<byte>, ph: Phase)
    requires 1 <= |payload| <= MAX_PAYLOAD && Inv(p, l, payload, ph) && l.tx.active && !l.tx.waiting
    ensures l.tx.remoteStMin == p.receiver.config.stMin
  {
  }

  lemma ArrivalIsNoFault(p: Pair, l: Link, payload: seq<byte>, ph: Phase, now: u32)
    requires p.Crossed() && 1 <= |payload| <= MAX_PAYLOAD && Inv(p, l, payload, ph) && l.toRx != []
    ensures !RxFeed(p.receiver, l.rx, l.toRx[0], now).1.status.IsError()
  {
    hide RxFeed;
    var ph' := ArrivalKeepsInv(p, l, payload, ph, now);
    assert Step(p, l, FrameArrives(now)).faults == [];
    NoFaultNoted(l.faults, RxFeed(p.receiver, l.rx, l.toRx[0], now).1.status);
  }

  lemma ArrivalRenews(p: Pair, l: Link, payload: seq<byte>, ph: Phase, now: u32)
    requires p.Crossed() && 1 <= |payload| <= MAX_PAYLOAD && Inv(p, l, payload, ph) && l.toRx != []
    ensures var rx := RxFeed(p.receiver, l.rx, l.toRx[0], now).0;
            rx.active ==> rx.deadlineMs == Add32(now, p.receiver.config.rxTimeoutMs)
  {
    ArrivalIsNoFault(p, l, payload, ph, now);
    NextIsAddressed(p, l, payload, ph);
    FeedRenews(p.receiver, l.rx, l.toRx[0], now);
  }

  lemma ArrivalStaysOnTime(p: Pair, l: Link, payload: seq<byte>, ph: Phase, t: nat)
    requires p.Crossed() && 1 <= |payload| <= MAX_PAYLOAD && Inv(p, l, payload, ph) && l.toRx != []
    requires Patient(p) && OnTime(l, t)
    ensures OnTime(Step(p, l, FrameArrives(Clock(t))), t)
  {
    ArrivalRenews(p, l, payload, ph, Clock(t));
    if l.tx.active && !l.tx.waiting {
      UnblockedKnowsPeer(p, l, payload, ph);
    }
    var (rx, report) := RxFeed(p.receiver, l.rx, l.toRx[0], Clock(t));
    ReceivedOnTime(p, l, rx, report, t);
  }

  lemma FlowControlStaysOnTime(p: Pair, l: Link, t: nat)
    requires LinkValid(l) && l.toTx != [] && Patient(p) && OnTime(l, t)
    requires l.tx.active && l.tx.waiting && l.toTx[0] == ClearToSend(p.receiver) && p.Crossed()
    ensures OnTime(Step(p, l, FlowControlArrives(Clock(t))), t)
  {
    FreshDeadline(Clock(t), p.sender.config.txTimeoutMs);
  }

  lemma FreshPause(now: u32, gap: u32)
    ensures Sub32(Add32(now, gap), now) == gap
  {
  }

  lemma EmissionStaysOnTime(p: Pair, l: Link, t: nat)
    requires LinkValid(l) && Ready(l.tx, Clock(t)) && Patient(p) && TicksPass(l, t)
    ensures OnTime(Step(p, l, SenderNext(Clock(t))), t)
  {
    var (tx, report) := TxNext(p.sender, l.tx, Clock(t));
    NextIsArmed(p.sender, l.tx, Clock(t));
    PolledOnTime(p, l, tx, report, t);
  }

  /** A ready sender hands out a frame and arms both its timers, or completes and is idle. */
  lemma NextIsArmed(ep: Endpoint, tx: TxState, now: u32)
    requires TxValid(tx) && Ready(tx, now)
    ensures var (tx', report) := TxNext(ep, tx, now);
            if report.frame.Some? then
              && tx'.remoteStMin == tx.remoteStMin
              && tx'.deadlineMs == Add32(now, ep.config.txTimeoutMs)
              && tx'.nextFrameMs == Add32(now, StMinToMs(tx.remoteStMin))
            else
              !tx'.active
  {
  }

  lemma PolledOnTime(p: Pair, l: Link, tx: TxState, report: TxReport, t: nat)
    requires Patient(p) && TicksPass(l, t)
    requires if report.frame.Some? then
               && tx.deadlineMs == Add32(Clock(t), p.sender.config.txTimeoutMs)
               && tx.nextFrameMs == Add32(Clock(t), StMinToMs(tx.remoteStMin))
             else
               !tx.active
    ensures OnTime(Polled(l, tx, report), t)
  {
    FreshDeadline(Clock(t), p.sender.config.txTimeoutMs);
    FreshPause(Clock(t), StMinToMs(tx.remoteStMin));
  }

  /** Between two instants a short pause apart, at neither of which a deadline has passed, it does not pass. */
  lemma BetweenNotExpired(t: nat, x: nat, t': nat, deadline: u32)
    requires t <= x <= t' <= t + 0xFF && !Expired(Clock(t), deadline) && !Expired(Clock(t'), deadline)
    ensures !Expired(Clock(x), deadline)
  {
    ClockGap(t, deadline);
    ClockGap(x, deadline);
    ClockGap(t', deadline);
    var d := (t - deadline) % TWO_32;
    if d + (t' - t) < TWO_32 {
      GapGrows(t - deadline, x - t);
    } else {
      GapWraps(t - deadline, t' - t);
    }
  }

  lemma GapWraps(x: int, d: nat)
    requires TWO_32 <= x % TWO_32 + d < TWO_32 + TWO_32
    ensures (x + d) % TWO_32 == x % TWO_32 + d - TWO_32
  {
    var q := x / TWO_32;
    assert x + d == TWO_32 * (q + 1) + (x % TWO_32 + d - TWO_32);
  }

  /** Ticks of either side pass at every instant from `t` to `t'`. */
  ghost predicate AlertUntil(l: Link, t: nat, t': nat) {
    forall x: nat :: t <= x <= t' ==> TicksPass(l, x)
  }

  lemma PauseIsAlert(l: Link, t: nat, t': nat)
    requires OnTime(l, t) && l.tx.active && !l.tx.waiting && l.toRx == [] && Ready(l.tx, Clock(t'))
    requires t' == if Expired(Clock(t), l.tx.nextFrameMs) then t else t + Sub32(l.tx.nextFrameMs, Clock(t))
    ensures AlertUntil(l, t, t')
  {
    if Pausing(l, t) {
      ClockReaches(t, l.tx.nextFrameMs);
    }
    forall x: nat | t <= x <= t' ensures TicksPass(l, x) {
      BetweenNotExpired(t, x, t', l.tx.deadlineMs);
      if l.rx.active {
        BetweenNotExpired(t, x, t', l.rx.deadlineMs);
      }
    }
  }

  /** The call `a` at instant `t'` comes in time, changes something and leaves the sender, or both sides, on time. */
  ghost predicate Progresses(p: Pair, l: Link, a: Action, t: nat, t': nat)
    requires LinkValid(l)
  {
    && t <= t' && a.now == Clock(t')
    && !TimesOut(l, a) && Step(p, l, a) != l && InTime(Step(p, l, a).tx, t')
    && (Patient(p) && OnTime(l, t) ==> AlertUntil(l, t, t') && OnTime(Step(p, l, a), t'))
  }

  lemma ArrivalProgresses(p: Pair, l: Link, payload: seq<byte>, ph: Phase, t: nat)
    requires p.Crossed() && 1 <= |payload| <= MAX_PAYLOAD && Inv(p, l, payload, ph) && l.toRx != [] && InTime(l.tx, t)
    ensures Progresses(p, l, FrameArrives(Clock(t)), t, t)
  {
    assert |Step(p, l, FrameArrives(Clock(t))).toRx| < |l.toRx|;
    if Patient(p) && OnTime(l, t) {
      ArrivalStaysOnTime(p, l, payload, ph, t);
    }
  }

  lemma FlowControlProgresses(p: Pair, l: Link, t: nat)
    requires p.Crossed() && LinkValid(l) && l.toTx != [] && InTime(l.tx, t)
    requires l.tx.active && l.tx.waiting && l.toTx[0] == ClearToSend(p.receiver)
    requires 1 <= p.sender.config.txTimeoutMs <= TWO_31
    ensures Progresses(p, l, FlowControlArrives(Clock(t)), t, t)
  {
    assert |Step(p, l, FlowControlArrives(Clock(t))).toTx| < |l.toTx|;
    FlowControlStaysInTime(p, l, t);
    if Patient(p) && OnTime(l, t) {
      FlowControlStaysOnTime(p, l, t);
    }
  }

  lemma SendProgresses(p: Pair, l: Link, t: nat, t': nat)
    requires LinkValid(l) && l.toRx == [] && Ready(l.tx, Clock(t')) && t <= t'
    requires t' == if Expired(Clock(t), l.tx.nextFrameMs) then t else t + Sub32(l.tx.nextFrameMs, Clock(t))
    requires 1 <= p.sender.config.txTimeoutMs <= TWO_31
    ensures Progresses(p, l, SenderNext(Clock(t')), t, t')
  {
    ReadySenderMoves(p, l, Clock(t'));
    ReadySenderStaysInTime(p, l, t');
    if Patient(p) && OnTime(l, t) {
      PauseIsAlert(l, t, t');
      EmissionStaysOnTime(p, l, t');
    }
  }

  /** From instant `t` on some call comes in time and changes something, and the sender is in time after it. */
  lemma SomeCallProgresses(p: Pair, l: Link, payload: seq<byte>, ph: Phase, t: nat) returns (a: Action, t': nat)
    requires p.Crossed() && 1 <= |payload| <= MAX_PAYLOAD && Inv(p, l, payload, ph) && !Quiet(l) && InTime(l.tx, t)
    requires StMinToMs(p.receiver.config.stMin) < p.sender.config.txTimeoutMs <= TWO_31
    ensures Progresses(p, l, a, t, t')
  {
    t' := t;
    if l.toRx != [] {
      a := FrameArrives(Clock(t));
      ArrivalProgresses(p, l, payload, ph, t);
    } else if l.toTx != [] {
      a := FlowControlArrives(Clock(t));
      FlowControlProgresses(p, l, t);
    } else {
      t' := SenderWillBeReady(p, l.tx, ph.sent - ph.base, t);
      a := SenderNext(Clock(t'));
      SendProgresses(p, l, t, t');
    }
  }

  /** Along the schedule, ticks of either side pass at every instant, up to each call and right after it. */
  ghost predicate Alert(p: Pair, l: Link, actions: seq<Action>, t: nat, at: seq<nat>)
    requires LinkValid(l) && |at| == |actions|
    decreases |actions|
  {
    actions == [] ||
    (&& AlertUntil(l, t, at[0]) && TicksPass(Step(p, l, actions[0]), at[0])
     && Alert(p, Step(p, l, actions[0]), actions[1..], at[0], at[1..]))
  }

  /** From any state of the transfer with the sender in time, calls going forward end quiet and delivered. */
  lemma {:induction false} QuietIsNear(p: Pair, l: Link, payload: seq<byte>, ph: Phase, t: nat)
    returns (actions: seq<Action>, at: seq<nat>)
    requires p.Crossed() && 1 <= |payload| <= MAX_PAYLOAD && Inv(p, l, payload, ph) && InTime(l.tx, t)
    requires StMinToMs(p.receiver.config.stMin) < p.sender.config.txTimeoutMs <= TWO_31
    ensures Forward(actions, t, at) && Timely(p, l, actions) && |actions| <= Remaining(l, payload, ph)
    ensures var l' := Run(p, l, actions); Quiet(l') && l'.delivered == [payload] && l'.faults == []
    ensures Patient(p) && OnTime(l, t) ==> Alert(p, l, actions, t, at)
    decreases Remaining(l, payload, ph)
  {
    RemainingIsNat(p, l, payload, ph);
    if Quiet(l) {
      actions, at := [], [];
    } else {
      var a, t' := SomeCallProgresses(p, l, payload, ph, t);
      var next := StepKeepsInv(p, l, payload, ph, a);
      RemainingIsNat(p, Step(p, l, a), payload, next);
      var rest, later := QuietIsNear(p, Step(p, l, a), payload, next, t');
      actions, at := [a] + rest, [t'] + later;
      assert actions[1..] == rest && at[1..] == later;
    }
  }

  /**
   * A schedule of calls, going forward from `t`, that completes the transfer without a time-out, and without
   * one in any tick either if both sides are patient and on time at `t`.
   */
  ghost predicate Finishes(p: Pair, l: Link, payload: seq<byte>, t: nat, more: seq<Action>, at: seq<nat>)
    requires LinkValid(l)
  {
    && Forward(more, t, at) && Timely(p, l, more)
    && Quiet(Run(p, l, more)) && Run(p, l, more).delivered == [payload]
    && (Patient(p) && OnTime(l, t) ==> Alert(p, l, more, t, at))
  }

  /**
   * No deadlock. If the separation time is shorter than the sender's timeout, then from every state that
   * any timely run reaches, and from every instant at which the sender's deadline has not passed, at most
   * 4 * ceil((n - 6) / 7) + 4 further calls, at instants that never go back, deliver the payload in time. If
   * it is shorter than the receiver's timeout too and both sides are on time, then ticks of either side, at
   * any instant of that schedule and in any number, never report a time-out either.
   */
  lemma ClosedLoopNeverStuck(p: Pair, tx: TxState, rx: RxState, payload: seq<byte>, now: u32, actions: seq<Action>,
                             t: nat)
    requires p.Crossed() && TxValid(tx) && RxValid(rx) && 1 <= |payload| <= MAX_PAYLOAD
    requires Timely(p, Begin(p, tx, rx, payload, now), actions)
    requires StMinToMs(p.receiver.config.stMin) < p.sender.config.txTimeoutMs <= TWO_31
    requires InTime(Run(p, Begin(p, tx, rx, payload, now), actions).tx, t)
    ensures exists more: seq<Action>, at: seq<nat> ::
              && |more| <= 4 * CfCount(|payload|) + 4
              && Finishes(p, Run(p, Begin(p, tx, rx, payload, now), actions), payload, t, more, at)
  {
    var ph := BeginInv(p, tx, rx, payload, now);
    ph := RunKeepsInv(p, Begin(p, tx, rx, payload, now), payload, ph, actions);
    var l := Run(p, Begin(p, tx, rx, payload, now), actions);
    RemainingIsNat(p, l, payload, ph);
    var more, at := QuietIsNear(p, l, payload, ph, t);
    assert Finishes(p, l, payload, t, more, at);
  }

  /** A transfer starts on time, unless the receiver is late in an older reception. */
  lemma BeginsOnTime(p: Pair, tx: TxState, rx: RxState, payload: seq<byte>, t: nat)
    requires TxValid(tx) && RxValid(rx) && 1 <= |payload| <= MAX_PAYLOAD && Patient(p)
    requires rx.active ==> !Expired(Clock(t), rx.deadlineMs)
    ensures OnTime(Begin(p, tx, rx, payload, Clock(t)), t)
  {
    FreshDeadline(Clock(t), p.sender.config.txTimeoutMs);
  }

  /** A tick that passes changes nothing, so a schedule may be interspersed with such ticks at will. */
  lemma PassingTicksChangeNothing(p: Pair, l: Link, t: nat)
    requires LinkValid(l) && TicksPass(l, t)
    ensures Step(p, l, SenderTick(Clock(t))) == l && Step(p, l, ReceiverTick(Clock(t))) == l
  {
  }

  /** How long after `t` a deadline that has passed still reads as passed on the wrapping clock. */
  function LateUntil(tx: TxState, t: nat): int {
    t + TWO_31 - Sub32(Clock(t), tx.deadlineMs)
  }

  lemma ClockGap(t: nat, deadline: u32)
    ensures Sub32(Clock(t), deadline) == (t - deadline) % TWO_32
  {
    var q := t / TWO_32;
    assert t - deadline == (Clock(t) - deadline) + TWO_32 * q;
  }

  lemma GapGrows(x: int, d: nat)
    requires x % TWO_32 + d < TWO_32
    ensures (x + d) % TWO_32 == x % TWO_32 + d
  {
    var q := x / TWO_32;
    assert x + d == TWO_32 * q + (x % TWO_32 + d);
  }

  lemma LateStaysLate(tx: TxState, t: nat, t': nat)
    requires Expired(Clock(t), tx.deadlineMs) && t <= t' < LateUntil(tx, t)
    ensures Expired(Clock(t'), tx.deadlineMs) && LateUntil(tx, t') == LateUntil(tx, t)
  {
    ClockGap(t, tx.deadlineMs);
    ClockGap(t', tx.deadlineMs);
    GapGrows(t - tx.deadlineMs, t' - t);
  }

  /**
   * The other half: once the deadline of an unblocked sender has passed, no call going forward moves it any
   * more without reporting a time-out, for as long as the clock shows the deadline as passed.
   */
  lemma {:induction false} LateSenderIsStuck(p: Pair, l: Link, t: nat, actions: seq<Action>, at: seq<nat>)
    requires LinkValid(l) && l.tx.active && !l.tx.waiting && !InTime(l.tx, t)
    requires Forward(actions, t, at) && Timely(p, l, actions)
    requires forall i :: 0 <= i < |at| ==> at[i] < LateUntil(l.tx, t)
    ensures Run(p, l, actions).tx == l.tx && !Quiet(Run(p, l, actions))
    decreases |actions|
  {
    if actions != [] {
      LateStaysLate(l.tx, t, at[0]);
      LateSenderStays(p, l, actions[0]);
      forall i | 0 <= i < |at[1..]| ensures at[1..][i] < LateUntil(l.tx, at[0]) {
        assert at[1..][i] == at[i + 1];
      }
      LateSenderIsStuck(p, Step(p, l, actions[0]), at[0], actions[1..], at[1..]);
    }
  }

  lemma LateSenderStays(p: Pair, l: Link, a: Action)
    requires LinkValid(l) && l.tx.active && !l.tx.waiting && Expired(a.now, l.tx.deadlineMs) && !TimesOut(l, a)
    ensures Step(p, l, a).tx == l.tx
  {
  }
}
