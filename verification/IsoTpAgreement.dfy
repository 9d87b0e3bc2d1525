/**
 * The host's receiver and the device's on the same frames: where they agree, and the one family of frames that
 * parts them.
 */
module IsoTpAgreement {
  import opened Words
  import opened IsoTp
  import opened IsoTpHost
  import opened IsoTpStream

  /** Both idle, or both in the same reception. */
  predicate SameReception(s: HostState, rx: RxState) {
    if rx.active then
      s.expected == Some(rx.expectedLen as nat) && s.buffer == rx.received && s.nextSequence == rx.nextSequence
    else
      s.expected == None
  }

  /** A single frame that claims no bytes: the host hands over an empty payload, the device refuses it. */
  predicate EmptySingle(f: CanFrame) {
    f.data[0] == 0
  }

  /** Flow control of a known status, which the host's receiver lets pass. */
  predicate IsFlowControl(f: CanFrame) {
    0x30 <= f.data[0] <= 0x32
  }

  lemma SeenBytes(f: CanFrame, from: nat, to: nat)
    requires f.dlc <= 8 && from <= to <= f.dlc
    ensures Seen(f).data[from..to] == f.data[from..to] && Seen(f).data[from..] == f.data[from..f.dlc]
  {
  }

  /** What the two make of a frame, the host first. */
  datatype Pair = Pair(s: HostState, out: Outcome, rx: RxState, report: RxReport)

  function Both(ep: Endpoint, rx: RxState, s: HostState, f: CanFrame, now: u32): (p: Pair)
    requires RxValid(rx) && f.dlc <= 8
  {
    var (rx', report) := RxFeed(ep, rx, f, now);
    var (s', out) := HostFeed(4095, s, Seen(f));
    Pair(s', out, rx', report)
  }

  lemma SingleAgrees(ep: Endpoint, rx: RxState, s: HostState, f: CanFrame, now: u32)
    requires RxValid(rx) && f.canId == ep.requestId && 1 <= f.dlc <= 8 && 1 <= f.data[0] < 0x10
    ensures var p := Both(ep, rx, s, f, now);
            && p.s == s
            && (p.out.Raised? <==> p.report.status == ErrFormat)
            && (p.out.Value? <==> Classify(ep, Frame(f, now)).SingleFrame?)
            && (p.out.Value? ==> p.report.status == Complete)
            && (p.out.Raised? ==> p.rx == rx)
            && (p.out.Value? ==> p.out == Value([], p.report.payload) && p.report.payload.Some? && !p.rx.active)
  {
    if f.data[0] < f.dlc {
      SeenBytes(f, 1, 1 + f.data[0]);
    }
  }

  lemma FirstAgrees(ep: Endpoint, rx: RxState, s: HostState, f: CanFrame, now: u32)
    requires RxValid(rx) && f.canId == ep.requestId && 1 <= f.dlc <= 8 && f.data[0] / 16 == 1
    ensures var p := Both(ep, rx, s, f, now);
            if Classify(ep, Frame(f, now)).FirstFrame? then
              && SameReception(p.s, p.rx) && p.report.status == NeedFlowControl && p.report.payload == None
              && p.out == Value([HostFrame(f.canId, [0x30, 0, 0])], None)
            else
              && p.s == s && p.out.Raised? && p.report.status.IsError()
              && p.rx == if Classify(ep, Frame(f, now)).BadFirstFrame? then RX_RESET else rx
  {
    if f.dlc >= 2 {
      SeenBytes(f, 2, f.dlc);
    }
  }

  lemma ConsecutiveAgrees(ep: Endpoint, rx: RxState, s: HostState, f: CanFrame, now: u32)
    requires RxValid(rx) && SameReception(s, rx) && f.canId == ep.requestId && 1 <= f.dlc <= 8 && f.data[0] / 16 == 2
    ensures var p := Both(ep, rx, s, f, now);
            && SameReception(p.s, p.rx)
            && (p.out.Raised? <==> p.report.status.IsError())
            && (p.out.Value? ==> p.out == Value([], p.report.payload))
  {
    SeenBytes(f, 1, f.dlc);
    if rx.active && f.data[0] % 16 == rx.nextSequence {
      var d, need := f.data[1..f.dlc], rx.expectedLen - |rx.received|;
      if |d| >= need {
        assert f.data[1..1 + need] == d[..need];
        assert (rx.received + d[..need])[..rx.expectedLen] == (rx.received + d)[..rx.expectedLen];
      }
    }
  }

  lemma OtherAgrees(ep: Endpoint, rx: RxState, s: HostState, f: CanFrame, now: u32)
    requires RxValid(rx) && f.canId == ep.requestId && 1 <= f.dlc <= 8 && f.data[0] / 16 >= 3
    ensures var p := Both(ep, rx, s, f, now);
            && p.s == s && p.rx == rx && p.report.status == (if f.data[0] / 16 == 3 then ErrState else ErrFormat)
            && (p.out.Raised? <==> !IsFlowControl(f)) && (p.out.Value? ==> p.out == Value([], None))
  {
  }

  /** A frame that ends the device's reception and leaves the host's open. */
  predicate Splits(ep: Endpoint, rx: RxState, f: CanFrame, now: u32) {
    var kind := Classify(ep, Frame(f, now));
    rx.active && (kind.SingleFrame? || kind.BadFirstFrame?)
  }

  lemma EmptySingleParts(ep: Endpoint, rx: RxState, s: HostState, f: CanFrame, now: u32)
    requires RxValid(rx) && f.canId == ep.requestId && 1 <= f.dlc <= 8 && EmptySingle(f)
    ensures var p := Both(ep, rx, s, f, now);
            p.s == s && p.rx == rx && p.out == Value([], Some([])) && p.report == RxReport(ErrFormat, None, None)
  {
    assert Seen(f).data[1..1] == [];
  }

  /**
   * In the same reception, host and device stay in the same reception after a frame exactly if it is not a
   * single frame or a first frame of impossible length that finds one open: the device gives the open reception
   * up, the host does not. They refuse the same frames and hand over the same payloads, but for an empty single
   * frame and for flow control, which the host lets pass; and a good first frame alone makes the host answer.
   */
  lemma HostAgreesExactly(ep: Endpoint, rx: RxState, s: HostState, f: CanFrame, now: u32)
    requires RxValid(rx) && SameReception(s, rx) && f.canId == ep.requestId && 1 <= f.dlc <= 8
    ensures var p := Both(ep, rx, s, f, now);
            && (SameReception(p.s, p.rx) <==> !Splits(ep, rx, f, now))
            && (!EmptySingle(f) && !IsFlowControl(f) ==>
                  && (p.out.Raised? <==> p.report.status.IsError())
                  && (p.out.Value? ==> p.out.payload == p.report.payload))
            && (EmptySingle(f) ==> p.out == Value([], Some([])) && p.report.status == ErrFormat)
            && (IsFlowControl(f) ==> p.out == Value([], None) && p.report.status == ErrState)
            && (p.out.Value? ==>
                  p.out.flowControl == if Classify(ep, Frame(f, now)).FirstFrame? then [HostFrame(f.canId, [0x30, 0, 0])]
                                       else [])
  {
    hide Both;
    if EmptySingle(f) {
      EmptySingleParts(ep, rx, s, f, now);
    } else if f.data[0] < 0x10 {
      SingleAgrees(ep, rx, s, f, now);
    } else if f.data[0] / 16 == 1 {
      FirstAgrees(ep, rx, s, f, now);
    } else if f.data[0] / 16 == 2 {
      ConsecutiveAgrees(ep, rx, s, f, now);
    } else {
      OtherAgrees(ep, rx, s, f, now);
    }
  }
}
