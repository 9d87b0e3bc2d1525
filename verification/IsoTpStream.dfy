/**
 * The receiver on arbitrary input: frames of any identifier, length and content, interleaved with timer
 * ticks. What the receiver holds is characterised by looking back at the input alone.
 */
module IsoTpStream {
  import opened Words
  import opened IsoTp

  datatype Input = Frame(frame: CanFrame, at: u32) | Tick(at: u32)

  function React(ep: Endpoint, rx: RxState, x: Input): (rx': RxState)
    requires RxValid(rx)
    ensures RxValid(rx')
  {
    match x
    case Frame(f, now) => RxFeed(ep, rx, f, now).0
    case Tick(now) => RxTick(rx, now).0
  }

  /** A receiver that starts idle, after all of `inputs`. */
  function After(ep: Endpoint, inputs: seq<Input>): (rx: RxState)
    ensures RxValid(rx)
  {
    if inputs == [] then RX_RESET else React(ep, After(ep, inputs[..|inputs| - 1]), inputs[|inputs| - 1])
  }

  // ------------------------------------------------------- reading the input

  /** What a single input is, judged by its own bytes. */
  datatype Kind =
    | Ignored
    | SingleFrame(bytes: seq<byte>)
    | FirstFrame(length: nat, bytes: seq<byte>)
    | BadFirstFrame
    | Consecutive(number: byte, bytes: seq<byte>)
    | Elapsed

  function Classify(ep: Endpoint, x: Input): Kind {
    match x
    case Tick(_) => Elapsed
    case Frame(f, _) =>
      if f.canId != ep.requestId || f.dlc == 0 || f.dlc > 8 then Ignored
      else
        var low := f.data[0] % 16;
        match f.data[0] / 16
        case 0 => if 1 <= low <= Min(7, f.dlc - 1) then SingleFrame(f.data[1..1 + low]) else Ignored
        case 1 =>
          if f.dlc < 2 then Ignored
          else
            var length := low as int * 256 + f.data[1] as int;
            if 7 < length <= MAX_PAYLOAD then FirstFrame(length, f.data[2..f.dlc]) else BadFirstFrame
        case 2 => Consecutive(low, f.data[1..f.dlc])
        case _ => Ignored
  }

  /** Consecutive frames after position `i`. */
  function Count(ep: Endpoint, inputs: seq<Input>, i: nat): nat {
    if |inputs| <= i + 1 then 0
    else
      var n := |inputs| - 1;
      Count(ep, inputs[..n], i) + if Classify(ep, inputs[n]).Consecutive? then 1 else 0
  }

  /** The bytes of the first frame at position `i` and of the consecutive frames after it. */
  function Body(ep: Endpoint, inputs: seq<Input>, i: nat): seq<byte>
    requires i < |inputs| && Classify(ep, inputs[i]).FirstFrame?
  {
    var n := |inputs| - 1;
    if n == i then Classify(ep, inputs[i]).bytes
    else Body(ep, inputs[..n], i) + match Classify(ep, inputs[n]) case Consecutive(_, b) => b case _ => []
  }

  /** When the first frame at position `i` or the latest consecutive frame after it came in. */
  function LastHeard(ep: Endpoint, inputs: seq<Input>, i: nat): u32
    requires i < |inputs|
  {
    var n := |inputs| - 1;
    if n == i || Classify(ep, inputs[n]).Consecutive? then inputs[n].at else LastHeard(ep, inputs[..n], i)
  }

  /** `x` does not end a reception opened at position `i`, given the inputs before it. */
  predicate Continues(ep: Endpoint, before: seq<Input>, i: nat, x: Input)
    requires i < |before|
  {
    match Classify(ep, x)
    case Ignored => true
    case Consecutive(number, _) => number == (Count(ep, before, i) + 1) % 16
    case Elapsed => !Expired(x.at, Add32(LastHeard(ep, before, i), ep.config.rxTimeoutMs))
    case _ => false
  }

  /** The inputs from position `i` on are a good first frame, still short of its declared length. */
  ghost predicate Receiving(ep: Endpoint, inputs: seq<Input>, i: nat) {
    && i < |inputs|
    && Classify(ep, inputs[i]).FirstFrame?
    && (forall j :: i < j < |inputs| ==> Continues(ep, inputs[..j], i, inputs[j]))
    && |Body(ep, inputs, i)| < Classify(ep, inputs[i]).length
  }

  /** Frames of the current block after `count` consecutive frames; without blocks the count just wraps. */
  function InBlock(ep: Endpoint, count: nat): nat {
    if ep.config.blockSize == 0 then count % 256 else count % ep.config.blockSize
  }

  ghost predicate Holds(ep: Endpoint, rx: RxState, inputs: seq<Input>, i: nat)
    requires i < |inputs| && Classify(ep, inputs[i]).FirstFrame?
  {
    && rx.active
    && rx.expectedLen == Classify(ep, inputs[i]).length
    && rx.received == Body(ep, inputs, i)
    && rx.nextSequence == (Count(ep, inputs, i) + 1) % 16
    && rx.deadlineMs == Add32(LastHeard(ep, inputs, i), ep.config.rxTimeoutMs)
    && rx.blockCount == InBlock(ep, Count(ep, inputs, i))
  }

  // ------------------------------------------------------------------ proofs

  /** A reception still open after one more input was open before it, or has just been opened. */
  lemma ReceivingShrinks(ep: Endpoint, inputs: seq<Input>, x: Input, i: nat)
    requires Receiving(ep, inputs + [x], i)
    ensures if i == |inputs| then Classify(ep, x).FirstFrame?
            else Receiving(ep, inputs, i) && Continues(ep, inputs, i, x)
  {
    if i < |inputs| {
      var all := inputs + [x];
      assert all[..|inputs|] == inputs;
      assert Continues(ep, all[..|inputs|], i, all[|inputs|]);
      forall j | i < j < |inputs|
        ensures Continues(ep, inputs[..j], i, inputs[j])
      {
        assert all[..j] == inputs[..j] && all[j] == inputs[j];
      }
    }
  }

  lemma ReceivingGrows(ep: Endpoint, inputs: seq<Input>, x: Input, i: nat)
    requires Receiving(ep, inputs, i) && Continues(ep, inputs, i, x)
    requires |Body(ep, inputs + [x], i)| < Classify(ep, inputs[i]).length
    ensures Receiving(ep, inputs + [x], i)
  {
    var all := inputs + [x];
    forall j | i < j < |all|
      ensures Continues(ep, all[..j], i, all[j])
    {
      assert all[..j] == if j < |inputs| then inputs[..j] else inputs;
    }
  }

  /** A correctly numbered frame that does not yet fill the reception is appended to it. */
  lemma FrameIsAppended(ep: Endpoint, rx: RxState, f: CanFrame, now: u32)
    requires RxValid(rx) && rx.active && Classify(ep, Frame(f, now)).Consecutive?
    requires var k := Classify(ep, Frame(f, now));
             k.number == rx.nextSequence && |rx.received| + |k.bytes| < rx.expectedLen
    ensures var rx' := RxFeed(ep, rx, f, now).0;
            && rx'.active && rx'.expectedLen == rx.expectedLen
            && rx'.received == rx.received + Classify(ep, Frame(f, now)).bytes
            && rx'.nextSequence == (rx.nextSequence + 1) % 16
            && rx'.deadlineMs == Add32(now, ep.config.rxTimeoutMs)
            && rx'.blockCount == NextInBlock(ep, rx.blockCount)
  {
  }

  function NextInBlock(ep: Endpoint, blockCount: byte): byte {
    var next := (blockCount + 1) % 256;
    if ep.config.blockSize != 0 && next >= ep.config.blockSize then 0 else next
  }

  lemma BlockTurns(ep: Endpoint, blockCount: byte, count: nat)
    requires blockCount == InBlock(ep, count)
    ensures NextInBlock(ep, blockCount) == InBlock(ep, count + 1)
  {
    if ep.config.blockSize != 0 {
      Successor(count, ep.config.blockSize);
    }
  }

  lemma LookingBackGrows(ep: Endpoint, inputs: seq<Input>, x: Input, i: nat)
    requires i < |inputs| && Classify(ep, inputs[i]).FirstFrame?
    ensures var all := inputs + [x];
            var kind := Classify(ep, x);
            && Count(ep, all, i) == Count(ep, inputs, i) + (if kind.Consecutive? then 1 else 0)
            && Body(ep, all, i) == Body(ep, inputs, i) + (if kind.Consecutive? then kind.bytes else [])
            && LastHeard(ep, all, i) == (if kind.Consecutive? then x.at else LastHeard(ep, inputs, i))
  {
    assert (inputs + [x])[..|inputs|] == inputs;
  }

  /** Other identifiers, malformed frames and ticks in time leave an open reception alone. */
  lemma OthersLeaveItAlone(ep: Endpoint, rx: RxState, x: Input)
    requires RxValid(rx) && rx.active
    requires Classify(ep, x).Ignored? || (Classify(ep, x).Elapsed? && !Expired(x.at, rx.deadlineMs))
    ensures React(ep, rx, x) == rx
  {
  }

  /** One more input that does not end the reception. */
  lemma HoldsGrows(ep: Endpoint, rx: RxState, inputs: seq<Input>, x: Input, i: nat)
    requires i < |inputs| && Classify(ep, inputs[i]).FirstFrame?
    requires Continues(ep, inputs, i, x) && RxValid(rx) && Holds(ep, rx, inputs, i)
    requires |Body(ep, inputs + [x], i)| < Classify(ep, inputs[i]).length
    ensures Holds(ep, React(ep, rx, x), inputs + [x], i)
  {
    LookingBackGrows(ep, inputs, x, i);
    if Classify(ep, x).Consecutive? {
      HoldsGrowsByFrame(ep, rx, inputs, x, i);
    } else {
      OthersLeaveItAlone(ep, rx, x);
    }
  }

  lemma HoldsGrowsByFrame(ep: Endpoint, rx: RxState, inputs: seq<Input>, x: Input, i: nat)
    requires i < |inputs| && Classify(ep, inputs[i]).FirstFrame? && Classify(ep, x).Consecutive?
    requires Continues(ep, inputs, i, x) && RxValid(rx) && Holds(ep, rx, inputs, i)
    requires |Body(ep, inputs + [x], i)| < Classify(ep, inputs[i]).length
    ensures Holds(ep, React(ep, rx, x), inputs + [x], i)
  {
    LookingBackGrows(ep, inputs, x, i);
    FrameIsAppended(ep, rx, x.frame, x.at);
    NextNumber(rx.nextSequence, Count(ep, inputs, i));
    BlockTurns(ep, rx.blockCount, Count(ep, inputs, i));
  }

  lemma NextNumber(number: byte, count: nat)
    requires number == (count + 1) % 16
    ensures (number + 1) % 16 == (count + 2) % 16
  {
  }

  lemma OpeningHolds(ep: Endpoint, rx: RxState, inputs: seq<Input>, x: Input)
    requires RxValid(rx) && Classify(ep, x).FirstFrame?
    ensures Holds(ep, React(ep, rx, x), inputs + [x], |inputs|)
    ensures Receiving(ep, inputs + [x], |inputs|)
  {
  }

  /** After one more input an active receiver was opened by it or carried through it. */
  lemma StillActive(ep: Endpoint, inputs: seq<Input>, x: Input, i: nat)
    requires i < |inputs| && Classify(ep, inputs[i]).FirstFrame?
    requires Holds(ep, After(ep, inputs), inputs, i)
    requires React(ep, After(ep, inputs), x).active && !Classify(ep, x).FirstFrame?
    ensures Continues(ep, inputs, i, x)
    ensures |Body(ep, inputs + [x], i)| < Classify(ep, inputs[i]).length
  {
    assert (inputs + [x])[..|inputs|] == inputs;
  }

  lemma IdleStaysIdle(ep: Endpoint, rx: RxState, x: Input)
    requires RxValid(rx) && !rx.active && !Classify(ep, x).FirstFrame?
    ensures !React(ep, rx, x).active
  {
  }

  /**
   * The receiver is active exactly when the input ends in an open reception, and then it holds exactly
   * that reception's bytes, count, declared length and deadline.
   */
  lemma {:induction false} ReceiverReflectsInput(ep: Endpoint, inputs: seq<Input>)
    ensures After(ep, inputs).active <==> exists i: nat :: Receiving(ep, inputs, i)
    ensures forall i: nat :: Receiving(ep, inputs, i) ==> Holds(ep, After(ep, inputs), inputs, i)
  {
    if inputs != [] {
      var init, x := inputs[..|inputs| - 1], inputs[|inputs| - 1];
      assert inputs == init + [x];
      ReceiverReflectsInput(ep, init);
      forall i: nat | Receiving(ep, inputs, i)
        ensures Holds(ep, After(ep, inputs), inputs, i)
      {
        ReceivingShrinks(ep, init, x, i);
        if i == |init| {
          OpeningHolds(ep, After(ep, init), init, x);
        } else {
          HoldsGrows(ep, After(ep, init), init, x, i);
        }
      }
      if After(ep, inputs).active {
        if Classify(ep, x).FirstFrame? {
          OpeningHolds(ep, After(ep, init), init, x);
        } else {
          if !After(ep, init).active { IdleStaysIdle(ep, After(ep, init), x); }
          var i: nat :| Receiving(ep, init, i);
          StillActive(ep, init, x, i);
          ReceivingGrows(ep, init, x, i);
        }
      }
    }
  }

  /** An open reception completes with `d` as its next bytes. */
  ghost predicate CompletedBy(ep: Endpoint, inputs: seq<Input>, i: nat, number: byte, d: seq<byte>) {
    && Receiving(ep, inputs, i)
    && number == (Count(ep, inputs, i) + 1) % 16
    && |Body(ep, inputs, i)| + |d| >= Classify(ep, inputs[i]).length
  }

  /**
   * Soundness and completeness on arbitrary streams. A frame makes the receiver report COMPLETE exactly
   * when it is a good single frame, or the correctly numbered consecutive frame that fills an open
   * reception; the payload is then the declared-length prefix of the bytes of that reception's frames.
   */
  lemma CompleteExactly(ep: Endpoint, inputs: seq<Input>, f: CanFrame, now: u32)
    ensures var report := RxFeed(ep, After(ep, inputs), f, now).1;
            match Classify(ep, Frame(f, now))
            case SingleFrame(bytes) => report.status == Complete && report.payload == Some(bytes)
            case Consecutive(number, d) =>
              && (report.status == Complete <==> exists i: nat :: CompletedBy(ep, inputs, i, number, d))
              && (forall i: nat :: CompletedBy(ep, inputs, i, number, d) ==>
                    report.payload == Some((Body(ep, inputs, i) + d)[..Classify(ep, inputs[i]).length]))
            case _ => report.status != Complete && report.payload == None
  {
    ReceiverReflectsInput(ep, inputs);
    var rx := After(ep, inputs);
    var kind := Classify(ep, Frame(f, now));
    if kind.Consecutive? {
      forall i: nat | CompletedBy(ep, inputs, i, kind.number, kind.bytes)
        ensures RxFeed(ep, rx, f, now).1
                  == RxReport(Complete, Some((Body(ep, inputs, i) + kind.bytes)[..Classify(ep, inputs[i]).length]), None)
      {
        FillingFrame(ep, rx, f, now);
      }
      if RxFeed(ep, rx, f, now).1.status == Complete {
        var i: nat :| Receiving(ep, inputs, i);
        assert CompletedBy(ep, inputs, i, kind.number, kind.bytes);
      }
    }
  }

  lemma FillingFrame(ep: Endpoint, rx: RxState, f: CanFrame, now: u32)
    requires RxValid(rx) && rx.active && Classify(ep, Frame(f, now)).Consecutive?
    requires var k := Classify(ep, Frame(f, now));
             k.number == rx.nextSequence && |rx.received| + |k.bytes| >= rx.expectedLen
    ensures RxFeed(ep, rx, f, now).1
              == RxReport(Complete, Some((rx.received + Classify(ep, Frame(f, now)).bytes)[..rx.expectedLen]), None)
  {
    var d := Classify(ep, Frame(f, now)).bytes;
    var need := rx.expectedLen - |rx.received|;
    assert f.data[1..1 + need] == d[..need];
    assert (rx.received + d[..need])[..rx.expectedLen] == (rx.received + d)[..rx.expectedLen];
  }

  /** What a consecutive frame with these bytes is answered while the reception opened at `i` is open. */
  ghost function ConsecutiveAnswer(ep: Endpoint, inputs: seq<Input>, i: nat, number: byte, d: seq<byte>): Status
    requires i < |inputs| && Classify(ep, inputs[i]).FirstFrame?
  {
    var count := Count(ep, inputs, i) + 1;
    if number != count % 16 then ErrSequence
    else if |Body(ep, inputs, i)| + |d| >= Classify(ep, inputs[i]).length then Complete
    else if ep.config.blockSize != 0 && count % ep.config.blockSize == 0 then NeedFlowControl
    else Ok
  }

  lemma ConsecutiveIsAnswered(ep: Endpoint, rx: RxState, inputs: seq<Input>, i: nat, f: CanFrame, now: u32)
    requires i < |inputs| && Classify(ep, inputs[i]).FirstFrame? && Classify(ep, Frame(f, now)).Consecutive?
    requires RxValid(rx) && Holds(ep, rx, inputs, i)
    ensures var kind := Classify(ep, Frame(f, now));
            RxFeed(ep, rx, f, now).1.status == ConsecutiveAnswer(ep, inputs, i, kind.number, kind.bytes)
  {
    BlockTurns(ep, rx.blockCount, Count(ep, inputs, i));
  }

  /**
   * The status of every frame, read off the input: a wrong number in an open reception is a sequence error, a
   * consecutive frame outside one a state error, and every block of frames ends in a request for flow control.
   * Exactly those requests carry the clear-to-send frame. No input makes the receiver report an overflow: twelve
   * bits of length cannot exceed the buffer.
   */
  lemma AnswersExactly(ep: Endpoint, inputs: seq<Input>, f: CanFrame, now: u32)
    ensures var report := RxFeed(ep, After(ep, inputs), f, now).1;
            && report.flowControl
                 == (if report.status != NeedFlowControl then None
                     else Some(MakeFrame(ep.responseId, [0x30, ep.config.blockSize, ep.config.stMin])))
            && match Classify(ep, Frame(f, now))
               case SingleFrame(_) => report.status == Complete
               case FirstFrame(_, _) => report.status == NeedFlowControl
               case BadFirstFrame => report.status == ErrFormat
               case Consecutive(number, d) =>
                 && (report.status == ErrState <==> forall i: nat :: !Receiving(ep, inputs, i))
                 && (forall i: nat :: Receiving(ep, inputs, i) ==>
                       report.status == ConsecutiveAnswer(ep, inputs, i, number, d))
               case _ =>
                 report.status == if f.dlc > 8 then ErrArgument
                                  else if f.canId != ep.requestId then Ok
                                  else if f.dlc > 0 && f.data[0] / 16 == 3 then ErrState
                                  else ErrFormat
  {
    ReceiverReflectsInput(ep, inputs);
    if Classify(ep, Frame(f, now)).Consecutive? {
      forall i: nat | Receiving(ep, inputs, i)
        ensures var kind := Classify(ep, Frame(f, now));
                RxFeed(ep, After(ep, inputs), f, now).1.status
                  == ConsecutiveAnswer(ep, inputs, i, kind.number, kind.bytes)
      {
        ConsecutiveIsAnswered(ep, After(ep, inputs), inputs, i, f, now);
      }
    }
  }

  /** A tick gives up the open reception, and reports it, exactly if its time has run out. */
  lemma TickAnswersExactly(ep: Endpoint, inputs: seq<Input>, now: u32)
    ensures var (rx', status) := RxTick(After(ep, inputs), now);
            && (status == ErrTimeout
                <==> exists i: nat :: Receiving(ep, inputs, i)
                                      && Expired(now, Add32(LastHeard(ep, inputs, i), ep.config.rxTimeoutMs)))
            && (status != ErrTimeout ==> status == Ok && rx' == After(ep, inputs))
            && (status == ErrTimeout ==> rx' == RX_RESET)
  {
    ReceiverReflectsInput(ep, inputs);
  }
}
