/**
 * The transport functions as they run: objects with fixed buffers, updated in place, whose every call
 * has the effect on the represented value that `IsoTp` specifies.
 */
module IsoTpMachines {
  import opened Words
  import opened IsoTp
  import opened Buffers

  class IsoTpReceiver {
    const ep: Endpoint
    const buffer: array<byte>
    var expectedLen: u16
    var receivedLen: u16
    var nextSequence: byte
    var blockCount: byte
    var deadlineMs: u32
    var active: bool

    ghost predicate Valid()
      reads this, buffer
    {
      && buffer.Length == MAX_PAYLOAD
      && receivedLen <= MAX_PAYLOAD
      && RxValid(State())
    }

    ghost function State(): RxState
      reads this, buffer
      requires buffer.Length == MAX_PAYLOAD && receivedLen <= MAX_PAYLOAD
    {
      RxState(buffer[..receivedLen], expectedLen, nextSequence, blockCount, deadlineMs, active)
    }

    constructor (ep: Endpoint)
      ensures Valid() && fresh(buffer) && this.ep == ep && State() == RX_RESET
    {
      this.ep := ep;
      buffer := new byte[MAX_PAYLOAD](_ => 0);
      expectedLen, receivedLen, nextSequence, blockCount, deadlineMs, active := 0, 0, 1, 0, 0, false;
    }

    method Reset()
      requires Valid()
      modifies this
      ensures Valid() && State() == RX_RESET
    {
      expectedLen, receivedLen, nextSequence, blockCount, deadlineMs, active := 0, 0, 1, 0, 0, false;
    }

    method Feed(f: CanFrame, now: u32) returns (report: RxReport)
      requires Valid()
      modifies this, buffer
      ensures Valid()
      ensures (State(), report) == RxFeed(ep, old(State()), f, now)
    {
      if f.dlc > 8 {
        return Plain(ErrArgument);
      }
      if f.canId != ep.requestId {
        return Plain(Ok);
      }
      if f.dlc == 0 {
        return Plain(ErrFormat);
      }
      var pciType := f.data[0] / 16;
      if pciType == 0 {
        report := TakeSingle(f);
      } else if pciType == 1 {
        report := TakeFirst(f, now);
      } else if pciType == 2 {
        report := TakeConsecutive(f, now);
      } else {
        report := Plain(if pciType == 3 then ErrState else ErrFormat);
      }
    }

    method TakeSingle(f: CanFrame) returns (report: RxReport)
      requires Valid() && 1 <= f.dlc <= 8
      modifies this, buffer
      ensures Valid()
      ensures (State(), report) == FeedSingle(old(State()), f)
    {
      var length := f.data[0] % 16;
      if length == 0 || length > 7 || length > f.dlc - 1 {
        return Plain(ErrFormat);
      }
      Reset();
      CopyInto(buffer, 0, f.data[1..1 + length]);
      assert buffer[0..0 + length] == buffer[..length];
      report := RxReport(Complete, Some(buffer[..length]), None);
    }

    method TakeFirst(f: CanFrame, now: u32) returns (report: RxReport)
      requires Valid() && 1 <= f.dlc <= 8
      modifies this, buffer
      ensures Valid()
      ensures (State(), report) == FeedFirst(ep, old(State()), f, now)
    {
      if f.dlc < 2 {
        return Plain(ErrFormat);
      }
      var length := f.data[0] as int % 16 * 256 + f.data[1] as int;
      if length <= 7 || length > MAX_PAYLOAD {
        Reset();
        return Plain(if length > MAX_PAYLOAD then ErrOverflow else ErrFormat);
      }
      expectedLen := length;
      receivedLen := Min(f.dlc - 2, length);
      CopyInto(buffer, 0, f.data[2..2 + receivedLen]);
      assert buffer[0..0 + receivedLen] == buffer[..receivedLen];
      nextSequence := 1;
      blockCount := 0;
      deadlineMs := Add32(now, ep.config.rxTimeoutMs);
      active := true;
      report := RxReport(NeedFlowControl, None, Some(ClearToSend(ep)));
    }

    /** Copy the bytes behind those already received. */
    method Append(source: seq<byte>)
      requires buffer.Length == MAX_PAYLOAD && receivedLen + |source| <= MAX_PAYLOAD
      modifies this`receivedLen, buffer
      ensures receivedLen == old(receivedLen) + |source|
      ensures buffer[..receivedLen] == old(buffer[..receivedLen]) + source
    {
      CopyInto(buffer, receivedLen, source);
      receivedLen := receivedLen + |source|;
      assert buffer[..receivedLen] == buffer[..old(receivedLen)] + buffer[old(receivedLen)..receivedLen];
    }

    method TakeConsecutive(f: CanFrame, now: u32) returns (report: RxReport)
      requires Valid() && 1 <= f.dlc <= 8
      modifies this, buffer
      ensures Valid()
      ensures (State(), report) == FeedConsecutive(ep, old(State()), f, now)
    {
      if !active {
        return Plain(ErrState);
      }
      if f.data[0] % 16 != nextSequence {
        Reset();
        return Plain(ErrSequence);
      }
      var copyLen := Min(f.dlc - 1, expectedLen - receivedLen);
      Append(f.data[1..1 + copyLen]);
      nextSequence := (nextSequence + 1) % 16;
      blockCount := (blockCount + 1) % 256;
      deadlineMs := Add32(now, ep.config.rxTimeoutMs);
      if receivedLen >= expectedLen {
        active := false;
        assert buffer[..receivedLen][..expectedLen] == buffer[..expectedLen];
        return RxReport(Complete, Some(buffer[..expectedLen]), None);
      }
      if ep.config.blockSize != 0 && blockCount >= ep.config.blockSize {
        blockCount := 0;
        return RxReport(NeedFlowControl, None, Some(ClearToSend(ep)));
      }
      report := Plain(Ok);
    }

    method Tick(now: u32) returns (status: Status)
      requires Valid()
      modifies this
      ensures Valid()
      ensures (State(), status) == RxTick(old(State()), now)
    {
      if active && Expired(now, deadlineMs) {
        Reset();
        return ErrTimeout;
      }
      status := Ok;
    }
  }

  class IsoTpSender {
    const ep: Endpoint
    const buffer: array<byte>
    var payloadLen: u16
    var offset: u16
    var nextSequence: byte
    var blockCount: byte
    var remoteBlockSize: byte
    var remoteStMin: byte
    var deadlineMs: u32
    var nextFrameMs: u32
    var active: bool
    var waiting: bool
    var waitFrames: byte

    ghost predicate Valid()
      reads this, buffer
    {
      && buffer.Length == MAX_PAYLOAD
      && payloadLen <= MAX_PAYLOAD
      && TxValid(State())
    }

    ghost function State(): TxState
      reads this, buffer
      requires buffer.Length == MAX_PAYLOAD && payloadLen <= MAX_PAYLOAD
    {
      TxState(buffer[..payloadLen], offset, nextSequence, blockCount, remoteBlockSize, remoteStMin, deadlineMs,
              nextFrameMs, active, waiting, waitFrames)
    }

    constructor (ep: Endpoint)
      ensures Valid() && fresh(buffer) && this.ep == ep && State() == TX_RESET
    {
      this.ep := ep;
      buffer := new byte[MAX_PAYLOAD](_ => 0);
      payloadLen, offset, nextSequence, blockCount := 0, 0, 1, 0;
      remoteBlockSize, remoteStMin, deadlineMs, nextFrameMs := 0, 0, 0, 0;
      active, waiting, waitFrames := false, false, 0;
    }

    method Reset()
      requires Valid()
      modifies this
      ensures Valid() && State() == TX_RESET
    {
      ForgetPeer();
      payloadLen, offset, nextSequence, active, waiting := 0, 0, 1, false, false;
    }

    method ForgetPeer()
      requires Valid()
      modifies this`blockCount, this`remoteBlockSize, this`remoteStMin
      modifies this`deadlineMs, this`nextFrameMs, this`waitFrames
      ensures State() == old(State()).(blockCount := 0, remoteBlockSize := 0, remoteStMin := 0, deadlineMs := 0,
                                       nextFrameMs := 0, waitFrames := 0)
    {
      blockCount, remoteBlockSize, remoteStMin := 0, 0, 0;
      deadlineMs, nextFrameMs, waitFrames := 0, 0, 0;
    }

    method Start(payload: seq<byte>, now: u32) returns (report: TxReport)
      requires Valid()
      modifies this, buffer
      ensures Valid()
      ensures (State(), report) == TxStart(ep, old(State()), payload, now)
    {
      if |payload| == 0 {
        return TxReport(ErrArgument, None);
      }
      if |payload| > MAX_PAYLOAD {
        return TxReport(ErrOverflow, None);
      }
      Load(payload, now);
      if |payload| <= 7 {
        Reset();
        return TxReport(TxFrameReady, Some(MakeFrame(ep.responseId, [|payload|] + payload)));
      }
      offset, active, waiting := 6, true, true;
      var header := [0x10 + |payload| / 256, |payload| % 256];
      report := TxReport(TxFrameReady, Some(MakeFrame(ep.responseId, header + payload[..6])));
    }

    /** The payload goes into the buffer; everything about the peer and the wait counter stay. */
    method Load(payload: seq<byte>, now: u32)
      requires Valid() && |payload| <= MAX_PAYLOAD
      modifies this`payloadLen, this`offset, this`nextSequence, this`blockCount, this`deadlineMs, buffer
      ensures Valid()
      ensures State() == old(State()).(payload := payload, offset := 0, nextSequence := 1, blockCount := 0,
                                       deadlineMs := Add32(now, ep.config.txTimeoutMs))
    {
      CopyInto(buffer, 0, payload);
      assert buffer[0..0 + |payload|] == buffer[..|payload|];
      payloadLen, offset, nextSequence, blockCount := |payload|, 0, 1, 0;
      deadlineMs := Add32(now, ep.config.txTimeoutMs);
    }

    method FeedFlowControl(f: CanFrame, now: u32) returns (status: Status)
      requires Valid()
      modifies this
      ensures Valid()
      ensures (State(), status) == TxFeedFlowControl(ep, old(State()), f, now)
    {
      if f.dlc > 8 {
        return ErrArgument;
      }
      if f.canId != ep.requestId {
        return Ok;
      }
      if !active || !waiting || f.dlc < 3 || f.data[0] / 16 != 3 {
        return ErrState;
      }
      var flowStatus := f.data[0] % 16;
      if flowStatus == 2 {
        Reset();
        return ErrFlowControl;
      }
      if flowStatus != 0 && flowStatus != 1 {
        return ErrFlowControl;
      }
      if !StMinOk(f.data[2]) {
        Reset();
        return ErrFlowControl;
      }
      remoteBlockSize := f.data[1];
      remoteStMin := f.data[2];
      deadlineMs := Add32(now, ep.config.txTimeoutMs);
      if flowStatus == 1 {
        if waitFrames >= ep.config.maxWaitFrames {
          Reset();
          return ErrFlowControl;
        }
        waitFrames := waitFrames + 1;
        waiting := true;
        return Ok;
      }
      waitFrames := 0;
      waiting := false;
      blockCount := 0;
      nextFrameMs := now;
      status := Ok;
    }

    method Next(now: u32) returns (report: TxReport)
      requires Valid()
      modifies this
      ensures Valid()
      ensures (State(), report) == TxNext(ep, old(State()), now)
    {
      if !active || waiting {
        return TxReport(Ok, None);
      }
      if Expired(now, deadlineMs) {
        Reset();
        return TxReport(ErrTimeout, None);
      }
      if !Expired(now, nextFrameMs) {
        return TxReport(Ok, None);
      }
      if offset >= payloadLen {
        Reset();
        return TxReport(Complete, None);
      }
      var frame := Emit(now);
      report := TxReport(TxFrameReady, Some(frame));
    }

    /** The next consecutive frame, straight from the buffer. */
    method Emit(now: u32) returns (frame: CanFrame)
      requires Valid() && offset < payloadLen && !waiting
      modifies this
      ensures Valid()
      ensures (State(), frame) == TxEmit(ep, old(State()), now)
    {
      var remaining := payloadLen - offset;
      var copyLen := if remaining > 7 then 7 else remaining;
      var chunk := buffer[offset..offset + copyLen];
      PrefixStretch(buffer[..], payloadLen, offset, offset + copyLen);
      assert buffer[..][..payloadLen] == buffer[..payloadLen];
      frame := MakeFrame(ep.responseId, [0x20 + nextSequence] + chunk);
      offset := offset + copyLen;
      nextSequence := (nextSequence + 1) % 16;
      blockCount := (blockCount + 1) % 256;
      deadlineMs := Add32(now, ep.config.txTimeoutMs);
      nextFrameMs := Add32(now, StMinToMs(remoteStMin));
      if remoteBlockSize != 0 && blockCount >= remoteBlockSize && offset < payloadLen {
        blockCount := 0;
        waiting := true;
      }
    }

    method Tick(now: u32) returns (status: Status)
      requires Valid()
      modifies this
      ensures Valid()
      ensures (State(), status) == TxTick(old(State()), now)
    {
      if active && Expired(now, deadlineMs) {
        Reset();
        return ErrTimeout;
      }
      status := Ok;
    }
  }
}
