/**
 * ISO-TP frames through the adapter: what the interrupt takes in the main line gets back, and what the sender
 * hands out is queued for the controller.
 */
module CanTransport {
  import opened Words
  import opened IsoTp
  import opened FrameQueue
  import opened CanQueues

  /** The identifier and the bytes that count, of which a frame has room for eight. */
  function MsgOfFrame(f: CanFrame): Msg {
    Msg(f.canId, f.data[..Min(f.dlc, MAX_FRAME_DATA)])
  }

  /** A popped frame: the same bytes in a cleared one. */
  function FrameOfMsg(m: Msg): CanFrame {
    MakeFrame(m.id, m.bytes[..Min(|m.bytes|, MAX_FRAME_DATA)])
  }

  function MsgsOfFrames(fs: seq<CanFrame>): (ms: seq<Msg>)
    ensures |ms| == |fs|
  {
    seq(|fs|, i requires 0 <= i < |fs| => MsgOfFrame(fs[i]))
  }

  function FramesOfMsgs(ms: seq<Msg>): (fs: seq<CanFrame>)
    ensures |fs| == |ms|
  {
    seq(|ms|, i requires 0 <= i < |ms| => FrameOfMsg(ms[i]))
  }

  /** Bytes that do not count are zero: what every frame of this transport looks like. */
  predicate Padded(f: CanFrame) {
    f.dlc <= 8 && forall i :: f.dlc <= i < 8 ==> f.data[i] == 0
  }

  /** Frames the adapter is there for. */
  predicate Addressed(can: UdsCan, f: CanFrame) {
    f.dlc <= 8 && f.canId <= 0x7FF && (f.canId == can.requestId || f.canId == can.responseId)
  }

  lemma PaddedComesBack(f: CanFrame)
    requires Padded(f)
    ensures FrameOfMsg(MsgOfFrame(f)) == f
  {
    assert FrameOfMsg(MsgOfFrame(f)).data == f.data;
  }

  lemma OneMoreMsg(before: seq<Msg>, fs: seq<CanFrame>, i: nat)
    requires i < |fs|
    ensures before + MsgsOfFrames(fs[..i]) + [MsgOfFrame(fs[i])] == before + MsgsOfFrames(fs[..i + 1])
  {
  }

  lemma OneMoreFrame(queued: seq<Msg>, n: nat)
    requires n < |queued|
    ensures FramesOfMsgs(queued[..n]) + [FrameOfMsg(queued[n])] == FramesOfMsgs(queued[..n + 1])
    ensures queued[n..][0] == queued[n] && queued[n..][1..] == queued[n + 1..]
  {
  }

  lemma NoFrameYet(queued: seq<Msg>)
    ensures FramesOfMsgs(queued[..0]) == [] && queued[0..] == queued
  {
  }

  /** One interrupt that finds room. */
  method ReceiveFrame(can: UdsCan, f: CanFrame)
    requires can.Valid() && Addressed(can, f) && |can.rx.Contents()| < can.rx.slots.Length - 1
    modifies can`rxFrames, can`rxOverflow, can`rxInvalid, can.rx, can.rx.slots
    ensures can.Valid() && can.rx.Contents() == old(can.rx.Contents()) + [MsgOfFrame(f)]
    ensures can.rxInvalid == old(can.rxInvalid) && can.rxOverflow == old(can.rxOverflow)
  {
    can.RxFromIsr(f.canId, Some(f.data[..f.dlc]));
  }

  /** Interrupts, one for each frame, before the main line runs again. */
  method ReceiveBurst(can: UdsCan, fs: seq<CanFrame>)
    requires can.Valid() && forall i :: 0 <= i < |fs| ==> Addressed(can, fs[i])
    requires |can.rx.Contents()| + |fs| <= can.rx.slots.Length - 1
    modifies can`rxFrames, can`rxOverflow, can`rxInvalid, can.rx, can.rx.slots
    ensures can.Valid() && can.rx.Contents() == old(can.rx.Contents()) + MsgsOfFrames(fs)
    ensures can.rxInvalid == old(can.rxInvalid) && can.rxOverflow == old(can.rxOverflow)
  {
    ghost var before := can.rx.Contents();
    assert before + MsgsOfFrames(fs[..0]) == before;
    for i := 0 to |fs|
      invariant can.Valid() && can.rx.Contents() == before + MsgsOfFrames(fs[..i])
      invariant can.rxInvalid == old(can.rxInvalid) && can.rxOverflow == old(can.rxOverflow)
    {
      ReceiveFrame(can, fs[i]);
      OneMoreMsg(before, fs, i);
    }
    assert fs[..|fs|] == fs;
  }

  /** One turn of the main line's loop. */
  method PopFrame(can: UdsCan) returns (f: Option<CanFrame>)
    requires can.Valid()
    modifies can.rx
    ensures can.Valid()
    ensures f == if old(can.rx.Contents()) == [] then None else Some(FrameOfMsg(old(can.rx.Contents())[0]))
    ensures can.rx.Contents() == if f.None? then old(can.rx.Contents()) else old(can.rx.Contents())[1..]
  {
    var m := can.RxPop();
    f := if m.None? then None else Some(FrameOfMsg(m.value));
  }

  /** The loop: at most `budget` frames are popped, in order, until the queue is empty. */
  method PopFrames(can: UdsCan, budget: nat) returns (fs: seq<CanFrame>)
    requires can.Valid()
    modifies can.rx
    ensures can.Valid()
    ensures var n := Min(budget, |old(can.rx.Contents())|);
            fs == FramesOfMsgs(old(can.rx.Contents())[..n]) && can.rx.Contents() == old(can.rx.Contents())[n..]
  {
    ghost var queued := can.rx.Contents();
    NoFrameYet(queued);
    hide FramesOfMsgs;
    hide FrameOfMsg;
    fs := [];
    var going := true;
    while going && |fs| < budget
      invariant can.Valid() && |fs| <= |queued| && |fs| <= budget
      invariant fs == FramesOfMsgs(queued[..|fs|]) && can.rx.Contents() == queued[|fs|..]
      invariant !going ==> |fs| == |queued|
      decreases budget - |fs|, going
    {
      var f := PopFrame(can);
      if f.None? {
        going := false;
      } else {
        OneMoreFrame(queued, |fs|);
        fs := fs + [f.value];
      }
    }
  }

  /**
   * Any burst of addressed frames that finds room, taken in by an idle queue and popped, comes back complete,
   * in order and byte for byte.
   */
  method FramesComeBack(can: UdsCan, fs: seq<CanFrame>) returns (got: seq<CanFrame>)
    requires can.Valid() && can.rx.Contents() == [] && |fs| <= can.rx.slots.Length - 1
    requires forall i :: 0 <= i < |fs| ==> Addressed(can, fs[i]) && Padded(fs[i])
    modifies can`rxFrames, can`rxOverflow, can`rxInvalid, can.rx, can.rx.slots
    ensures got == fs && can.Valid() && can.rx.Contents() == []
  {
    ReceiveBurst(can, fs);
    got := PopFrames(can, |fs|);
    ghost var ms := MsgsOfFrames(fs);
    assert [] + ms == ms && ms[..|fs|] == ms;
    forall i | 0 <= i < |fs| ensures got[i] == fs[i] {
      PaddedComesBack(fs[i]);
    }
  }

  /** The sender's frames: taken over while there is room, byte for byte. */
  method QueueFrame(can: UdsCan, f: CanFrame) returns (r: Queued)
    requires can.Valid()
    modifies can`accepted, can`txOverflow, can.tx, can.tx.slots
    ensures can.Valid()
    ensures r.Refused? <==> f.dlc > 8 || f.canId > 0x7FF || f.canId != can.responseId
    ensures !r.Refused? ==> (r.Accepted? <==> |old(can.tx.Contents())| < can.tx.slots.Length - 1)
    ensures can.accepted == if r.Accepted? then old(can.accepted) + [MsgOfFrame(f)] else old(can.accepted)
    ensures can.txOverflow == Raised(old(can.txOverflow), r.Full?)
  {
    if f.dlc > 8 {
      return Refused;
    }
    RingNeverOverfull(can.tx);
    r := can.TxQueue(f.canId, Some(f.data[..f.dlc]));
  }
}
