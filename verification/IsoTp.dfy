/**
 * ISO-TP over classic CAN (section 9.6 of ISO 15765-2:2016): what one call of each transport
 * function does to the value of a receiver or a sender.
 *
 * A receiver's buffer is represented by the bytes it has gathered so far, a sender's by the payload it
 * was given; `IsoTpMachines` shows that the fixed C buffers implement these values.
 */
module IsoTp {
  import opened Words

  const MAX_PAYLOAD: nat := 4095
  const MAX_FRAME_DATA: nat := 8

  /** A frame always carries eight data bytes of storage; `dlc` says how many of them count. */
  datatype RawFrame = RawFrame(canId: u32, dlc: byte, data: seq<byte>)
  type CanFrame = f: RawFrame | |f.data| == MAX_FRAME_DATA
    witness RawFrame(0, 0, [0, 0, 0, 0, 0, 0, 0, 0])

  datatype Status =
    | Ok | Complete | NeedFlowControl | TxFrameReady
    | ErrArgument | ErrFormat | ErrSequence | ErrOverflow | ErrTimeout | ErrState | ErrFlowControl
  {
    predicate IsError() {
      !(Ok? || Complete? || NeedFlowControl? || TxFrameReady?)
    }
  }

  datatype Config = Config(blockSize: byte, stMin: byte, rxTimeoutMs: u32, txTimeoutMs: u32,
                           maxWaitFrames: byte)

  /** The parts of a receiver or sender that are fixed at initialisation. */
  datatype Endpoint = Endpoint(config: Config, requestId: u32, responseId: u32)

  /** The bytes of a frame that count. */
  function Content(f: CanFrame): (b: seq<byte>)
    requires f.dlc as nat <= MAX_FRAME_DATA
  {
    f.data[..f.dlc]
  }

  /** A cleared frame with `content` written over its first bytes. */
  function MakeFrame(id: u32, content: seq<byte>): (f: CanFrame)
    requires |content| <= MAX_FRAME_DATA
    ensures f.dlc == |content| && Content(f) == content
    ensures forall i :: |content| <= i < MAX_FRAME_DATA ==> f.data[i] == 0
  {
    RawFrame(id, |content|, content + Zeros(MAX_FRAME_DATA - |content|))
  }

  // ---------------------------------------------------------------- receiver

  datatype RxState = RxState(received: seq<byte>, expectedLen: u16, nextSequence: byte,
                             blockCount: byte, deadlineMs: u32, active: bool)

  datatype RxReport = RxReport(status: Status, payload: Option<seq<byte>>, flowControl: Option<CanFrame>)

  const RX_RESET := RxState([], 0, 1, 0, 0, false)

  /** While a reception is active its bytes are fewer than declared, and 8 to 4095 are declared. */
  ghost predicate RxValid(rx: RxState) {
    && |rx.received| <= MAX_PAYLOAD
    && rx.nextSequence < 16
    && (rx.active ==> |rx.received| < rx.expectedLen && 8 <= rx.expectedLen <= MAX_PAYLOAD)
  }

  function Plain(status: Status): RxReport {
    RxReport(status, None, None)
  }

  function ClearToSend(ep: Endpoint): CanFrame {
    MakeFrame(ep.responseId, [0x30, ep.config.blockSize, ep.config.stMin])
  }

  function FeedSingle(rx: RxState, f: CanFrame): (RxState, RxReport)
    requires 1 <= f.dlc <= 8
  {
    var length := f.data[0] % 16;
    if length == 0 || length > 7 || length > f.dlc - 1 then (rx, Plain(ErrFormat))
    else (RX_RESET, RxReport(Complete, Some(f.data[1..1 + length]), None))
  }

  function FeedFirst(ep: Endpoint, rx: RxState, f: CanFrame, now: u32): (RxState, RxReport)
    requires 1 <= f.dlc <= 8
  {
    if f.dlc < 2 then (rx, Plain(ErrFormat))
    else
      var length := f.data[0] as int % 16 * 256 + f.data[1] as int;
      if length <= 7 then (RX_RESET, Plain(ErrFormat))
      else if length > MAX_PAYLOAD then (RX_RESET, Plain(ErrOverflow))
      else
        (RxState(f.data[2..2 + Min(f.dlc - 2, length)], length, 1, 0, Add32(now, ep.config.rxTimeoutMs), true),
         RxReport(NeedFlowControl, None, Some(ClearToSend(ep))))
  }

  function FeedConsecutive(ep: Endpoint, rx: RxState, f: CanFrame, now: u32): (RxState, RxReport)
    requires RxValid(rx)
    requires 1 <= f.dlc <= 8
  {
    if !rx.active then (rx, Plain(ErrState))
    else if f.data[0] % 16 != rx.nextSequence then (RX_RESET, Plain(ErrSequence))
    else
      var copyLen := Min(f.dlc - 1, rx.expectedLen - |rx.received|);
      var received := rx.received + f.data[1..1 + copyLen];
      var blockCount := (rx.blockCount + 1) % 256;
      var next := RxState(received, rx.expectedLen, (rx.nextSequence + 1) % 16, blockCount,
                          Add32(now, ep.config.rxTimeoutMs), true);
      if |received| >= rx.expectedLen then
        (next.(active := false), RxReport(Complete, Some(received[..rx.expectedLen]), None))
      else if ep.config.blockSize != 0 && blockCount >= ep.config.blockSize then
        (next.(blockCount := 0), RxReport(NeedFlowControl, None, Some(ClearToSend(ep))))
      else
        (next, Plain(Ok))
  }

  function RxFeed(ep: Endpoint, rx: RxState, f: CanFrame, now: u32): (r: (RxState, RxReport))
    requires RxValid(rx)
    ensures RxValid(r.0)
  {
    if f.dlc > 8 then (rx, Plain(ErrArgument))
    else if f.canId != ep.requestId then (rx, Plain(Ok))
    else if f.dlc == 0 then (rx, Plain(ErrFormat))
    else
      var pciType := f.data[0] / 16;
      if pciType == 0 then FeedSingle(rx, f)
      else if pciType == 1 then FeedFirst(ep, rx, f, now)
      else if pciType == 2 then FeedConsecutive(ep, rx, f, now)
      else (rx, Plain(if pciType == 3 then ErrState else ErrFormat))
  }

  function RxTick(rx: RxState, now: u32): (RxState, Status) {
    if rx.active && Expired(now, rx.deadlineMs) then (RX_RESET, ErrTimeout) else (rx, Ok)
  }

  // ------------------------------------------------------------------ sender

  datatype TxState = TxState(payload: seq<byte>, offset: nat, nextSequence: byte, blockCount: byte,
                             remoteBlockSize: byte, remoteStMin: byte, deadlineMs: u32, nextFrameMs: u32,
                             active: bool, waiting: bool, waitFrames: byte)

  datatype TxReport = TxReport(status: Status, frame: Option<CanFrame>)

  const TX_RESET := TxState([], 0, 1, 0, 0, 0, 0, 0, false, false, 0)

  ghost predicate TxValid(tx: TxState) {
    && tx.offset <= |tx.payload| <= MAX_PAYLOAD
    && tx.nextSequence < 16
    && StMinOk(tx.remoteStMin)
  }

  /** Separation times 0xF1..0xF9 stand for 100..900 microseconds; a millisecond clock waits one tick. */
  function StMinToMs(stMin: byte): u32 {
    if stMin <= 0x7F then stMin else 1
  }

  predicate StMinOk(stMin: byte) {
    stMin <= 0x7F || 0xF1 <= stMin <= 0xF9
  }

  function TxStart(ep: Endpoint, tx: TxState, payload: seq<byte>, now: u32): (r: (TxState, TxReport))
    requires TxValid(tx)
    ensures TxValid(r.0)
  {
    if |payload| == 0 then (tx, TxReport(ErrArgument, None))
    else if |payload| > MAX_PAYLOAD then (tx, TxReport(ErrOverflow, None))
    else if |payload| <= 7 then
      (TX_RESET, TxReport(TxFrameReady, Some(MakeFrame(ep.responseId, [|payload|] + payload))))
    else
      (tx.(payload := payload, offset := 6, nextSequence := 1, blockCount := 0,
           deadlineMs := Add32(now, ep.config.txTimeoutMs), active := true, waiting := true),
       TxReport(TxFrameReady,
                Some(MakeFrame(ep.responseId, [0x10 + |payload| / 256, |payload| % 256] + payload[..6]))))
  }

  function TxFeedFlowControl(ep: Endpoint, tx: TxState, f: CanFrame, now: u32): (r: (TxState, Status))
    requires TxValid(tx)
    ensures TxValid(r.0)
  {
    if f.dlc > 8 then (tx, ErrArgument)
    else if f.canId != ep.requestId then (tx, Ok)
    else if !tx.active || !tx.waiting || f.dlc < 3 || f.data[0] / 16 != 3 then (tx, ErrState)
    else
      var flowStatus := f.data[0] % 16;
      if flowStatus == 2 then (TX_RESET, ErrFlowControl)
      else if flowStatus > 2 then (tx, ErrFlowControl)
      else if !StMinOk(f.data[2]) then (TX_RESET, ErrFlowControl)
      else
        var told := tx.(remoteBlockSize := f.data[1], remoteStMin := f.data[2],
                        deadlineMs := Add32(now, ep.config.txTimeoutMs));
        if flowStatus == 1 then
          if tx.waitFrames >= ep.config.maxWaitFrames then (TX_RESET, ErrFlowControl)
          else (told.(waitFrames := tx.waitFrames + 1), Ok)
        else
          (told.(waitFrames := 0, waiting := false, blockCount := 0, nextFrameMs := now), Ok)
  }

  /** The next consecutive frame, and the state after handing it out. */
  function TxEmit(ep: Endpoint, tx: TxState, now: u32): (r: (TxState, CanFrame))
    requires TxValid(tx) && tx.offset < |tx.payload|
    ensures TxValid(r.0)
  {
    var offset := tx.offset + Min(|tx.payload| - tx.offset, 7);
    var blockCount := (tx.blockCount + 1) % 256;
    var endOfBlock := tx.remoteBlockSize != 0 && blockCount >= tx.remoteBlockSize && offset < |tx.payload|;
    (tx.(offset := offset, nextSequence := (tx.nextSequence + 1) % 16,
         blockCount := if endOfBlock then 0 else blockCount,
         deadlineMs := Add32(now, ep.config.txTimeoutMs),
         nextFrameMs := Add32(now, StMinToMs(tx.remoteStMin)),
         waiting := endOfBlock),
     MakeFrame(ep.responseId, [0x20 + tx.nextSequence] + tx.payload[tx.offset..offset]))
  }

  function TxNext(ep: Endpoint, tx: TxState, now: u32): (r: (TxState, TxReport))
    requires TxValid(tx)
    ensures TxValid(r.0)
  {
    if !tx.active || tx.waiting then (tx, TxReport(Ok, None))
    else if Expired(now, tx.deadlineMs) then (TX_RESET, TxReport(ErrTimeout, None))
    else if !Expired(now, tx.nextFrameMs) then (tx, TxReport(Ok, None))
    else if tx.offset >= |tx.payload| then (TX_RESET, TxReport(Complete, None))
    else
      var (next, frame) := TxEmit(ep, tx, now);
      (next, TxReport(TxFrameReady, Some(frame)))
  }

  function TxTick(tx: TxState, now: u32): (r: (TxState, Status)) {
    if tx.active && Expired(now, tx.deadlineMs) then (TX_RESET, ErrTimeout) else (tx, Ok)
  }
}
