/**
 * The CAN adapter's queues as objects: fixed rings written in place by one call at a time, and the loop
 * that drains the transmit ring into the controller's mailboxes.
 */
module CanQueues {
  import opened Words
  import opened FrameDelivery
  import opened FrameQueue

  type RingSlot = s: Slot | s.dlc <= 8 && |s.data| == 8
    witness Slot(0, 0, [0, 0, 0, 0, 0, 0, 0, 0])

  function MsgOf(s: RingSlot): Msg {
    Msg(s.id, s.data[..s.dlc])
  }

  function Msgs(slots: seq<RingSlot>): (ms: seq<Msg>)
    ensures |ms| == |slots|
  {
    seq(|slots|, i requires 0 <= i < |slots| => MsgOf(slots[i]))
  }

  /** The occupied slots of a ring, oldest first. */
  function Occupied(slots: seq<RingSlot>, head: nat, tail: nat): seq<RingSlot>
    requires head < |slots| && tail < |slots|
  {
    if tail <= head then slots[tail..head] else slots[tail..] + slots[..head]
  }

  class FrameRing {
    const slots: array<RingSlot>
    var head: nat
    var tail: nat

    ghost predicate Valid()
      reads this, slots
    {
      slots.Length > 0 && head < slots.Length && tail < slots.Length
    }

    ghost function Contents(): seq<Msg>
      reads this, slots
      requires Valid()
    {
      Msgs(Occupied(slots[..], head, tail))
    }

    constructor (capacity: nat)
      requires capacity > 0
      ensures Valid() && fresh(slots) && slots.Length == capacity && Contents() == []
    {
      slots := new RingSlot[capacity](_ => Slot(0, 0, [0, 0, 0, 0, 0, 0, 0, 0]));
      head, tail := 0, 0;
    }

    /** Append one frame unless capacity - 1 are queued. */
    method Put(m: Msg) returns (ok: bool)
      requires Valid() && |m.bytes| <= 8
      modifies this`head, slots
      ensures Valid()
      ensures ok == (|old(Contents())| < slots.Length - 1)
      ensures Contents() == if ok then old(Contents()) + [m] else old(Contents())
    {
      var next := NextIndex(head, slots.Length);
      if next == tail {
        return false;
      }
      var slot := slots[head];
      slots[head] := Slot(m.id, |m.bytes|, m.bytes + slot.data[|m.bytes|..]);
      assert MsgOf(slots[head]) == m;
      ghost var before := old(Occupied(slots[..], head, tail));
      head := next;
      assert Occupied(slots[..], head, tail) == before + [slots[old(head)]];
      ok := true;
    }

    /** Remove the oldest frame, if there is one. */
    method Take() returns (m: Option<Msg>)
      requires Valid()
      modifies this`tail
      ensures Valid()
      ensures m == if old(Contents()) == [] then None else Some(old(Contents())[0])
      ensures Contents() == if m.None? then old(Contents()) else old(Contents())[1..]
    {
      if tail == head {
        return None;
      }
      ghost var before := Occupied(slots[..], head, tail);
      m := Some(MsgOf(slots[tail]));
      assert before[0] == slots[tail];
      tail := NextIndex(tail, slots.Length);
      assert Occupied(slots[..], head, tail) == before[1..];
    }

    method Peek() returns (m: Option<Msg>)
      requires Valid()
      ensures m == if Contents() == [] then None else Some(Contents()[0])
    {
      if tail == head {
        return None;
      }
      assert Occupied(slots[..], head, tail)[0] == slots[tail];
      m := Some(MsgOf(slots[tail]));
    }
  }

  /** What the controller does with one attempt to transmit. */
  datatype Mailbox = Exhausted | AddFails | Sent

  datatype Queued = Accepted | Refused | Full

  /** A counter, one higher if something happened. */
  function Raised(count: u32, happened: bool): u32 {
    if happened then Add32(count, 1) else count
  }

  /** How many of `n` queued frames a call hands over in all, once it has handed over `done`. */
  function Drained(n: nat, budget: nat, hal: nat -> Mailbox, done: nat): nat
    decreases n - done
  {
    if done >= n || done >= budget || hal(done) != Sent then done else Drained(n, budget, hal, done + 1)
  }

  /** A drain takes at most its budget and stops early only at an empty queue or at the first failed attempt. */
  lemma {:induction false} DrainedExactly(n: nat, budget: nat, hal: nat -> Mailbox, done: nat)
    requires done <= n && done <= budget
    ensures var k := Drained(n, budget, hal, done);
            && done <= k <= n && k <= budget
            && (forall j :: done <= j < k ==> hal(j) == Sent)
            && (k < n && k < budget ==> hal(k) != Sent)
    decreases n - done
  {
    if done < n && done < budget && hal(done) == Sent {
      DrainedExactly(n, budget, hal, done + 1);
    }
  }

  class UdsCan {
    const requestId: u32
    const responseId: u32
    const rx: FrameRing
    const tx: FrameRing
    var rxFrames: u32
    var rxOverflow: u32
    var rxInvalid: u32
    var txFrames: u32
    var txOverflow: u32
    var txMailboxExhausted: u32
    var busErrors: u32
    ghost var accepted: seq<Msg>
    ghost var handed: seq<Msg>

    /**
     * Conservation on the transmit side: the frames handed to the controller followed by the frames still
     * queued are the frames accepted, in order; none is lost and none is sent twice. The counter shows the
     * number handed over modulo 2^32.
     */
    ghost predicate Valid()
      reads this, rx, rx.slots, tx, tx.slots
    {
      && rx != tx && rx.slots != tx.slots && rx.Valid() && tx.Valid()
      && handed + tx.Contents() == accepted
      && txFrames == |handed| % TWO_32
    }

    constructor (requestId: u32, responseId: u32, rxCapacity: nat, txCapacity: nat)
      requires rxCapacity > 0 && txCapacity > 0
      ensures Valid() && fresh(rx) && fresh(tx) && fresh(rx.slots) && fresh(tx.slots)
      ensures this.requestId == requestId && this.responseId == responseId && accepted == handed == []
    {
      this.requestId, this.responseId := requestId, responseId;
      rx := new FrameRing(rxCapacity);
      tx := new FrameRing(txCapacity);
      rxFrames, rxOverflow, rxInvalid := 0, 0, 0;
      txFrames, txOverflow, txMailboxExhausted, busErrors := 0, 0, 0, 0;
      accepted, handed := [], [];
    }

    /** The receive interrupt, uninterrupted. */
    method RxFromIsr(id: u32, data: Option<seq<byte>>)
      requires Valid()
      modifies this`rxFrames, this`rxOverflow, this`rxInvalid, rx, rx.slots
      ensures Valid()
      ensures var ours := WellFormed(id, data) && (id == requestId || id == responseId);
              var room := |old(rx.Contents())| < rx.slots.Length - 1;
              && rx.Contents() == old(rx.Contents()) + (if ours && room then [Msg(id, data.value)] else [])
              && rxFrames == (if ours && room then Add32(old(rxFrames), 1) else old(rxFrames))
              && rxOverflow == (if ours && !room then Add32(old(rxOverflow), 1) else old(rxOverflow))
              && rxInvalid == (if WellFormed(id, data) then old(rxInvalid) else Add32(old(rxInvalid), 1))
    {
      if data.None? || |data.value| > 8 || id > 0x7FF {
        rxInvalid := Add32(rxInvalid, 1);
        return;
      }
      if id != requestId && id != responseId {
        return;
      }
      var ok := rx.Put(Msg(id, data.value));
      if ok {
        rxFrames := Add32(rxFrames, 1);
      } else {
        rxOverflow := Add32(rxOverflow, 1);
      }
    }

    method RxPop() returns (m: Option<Msg>)
      requires Valid()
      modifies rx
      ensures Valid()
      ensures m == if old(rx.Contents()) == [] then None else Some(old(rx.Contents())[0])
      ensures rx.Contents() == if m.None? then old(rx.Contents()) else old(rx.Contents())[1..]
    {
      m := rx.Take();
    }

    method TxQueue(id: u32, data: Option<seq<byte>>) returns (r: Queued)
      requires Valid()
      modifies this`accepted, this`txOverflow, tx, tx.slots
      ensures Valid()
      ensures r == if data.None? || |data.value| > 8 || id > 0x7FF || id != responseId then Refused
                   else if |old(tx.Contents())| == tx.slots.Length - 1 then Full
                   else Accepted
      ensures accepted == if r.Accepted? then old(accepted) + [Msg(id, data.value)] else old(accepted)
      ensures txOverflow == if r.Full? then Add32(old(txOverflow), 1) else old(txOverflow)
    {
      if data.None? || |data.value| > 8 || id > 0x7FF || id != responseId {
        return Refused;
      }
      RingNeverOverfull(tx);
      var ok := tx.Put(Msg(id, data.value));
      if !ok {
        txOverflow := Add32(txOverflow, 1);
        return Full;
      }
      accepted := accepted + [Msg(id, data.value)];
      r := Accepted;
    }

    /** One turn of the drain loop; `outcome` is what the controller does with the oldest frame. */
    method SendOne(outcome: Mailbox) returns (sent: bool)
      requires Valid()
      modifies this`handed, this`txFrames, this`txMailboxExhausted, this`busErrors, tx
      ensures Valid()
      ensures sent == (old(tx.Contents()) != [] && outcome == Sent)
      ensures handed == if sent then old(handed) + old(tx.Contents())[..1] else old(handed)
      ensures tx.Contents() == if sent then old(tx.Contents())[1..] else old(tx.Contents())
      ensures var tried := old(tx.Contents()) != [];
              && txMailboxExhausted == Raised(old(txMailboxExhausted), tried && outcome == Exhausted)
              && busErrors == Raised(old(busErrors), tried && outcome == AddFails)
    {
      var m := tx.Peek();
      if m.None? {
        return false;
      }
      if outcome == Exhausted {
        txMailboxExhausted := Add32(txMailboxExhausted, 1);
        return false;
      }
      if outcome == AddFails {
        busErrors := Add32(busErrors, 1);
        return false;
      }
      HandOver();
      sent := true;
    }

    /** The oldest queued frame is the controller's now. */
    method HandOver()
      requires Valid() && tx.Contents() != []
      modifies this`handed, this`txFrames, tx
      ensures Valid()
      ensures handed == old(handed) + old(tx.Contents())[..1] && tx.Contents() == old(tx.Contents())[1..]
    {
      FirstMovesOver(handed, tx.Contents());
      CountGrows(txFrames, handed, tx.Contents()[..1]);
      ghost var first := tx.Contents()[..1];
      var _ := tx.Take();
      handed := handed + first;
      txFrames := Add32(txFrames, 1);
    }

    /** Hand queued frames to the controller, `hal(i)` being the outcome of the i-th attempt. */
    method ProcessTx(budget: nat, hal: nat -> Mailbox) returns (processed: nat)
      requires Valid()
      modifies this`handed, this`txFrames, this`txMailboxExhausted, this`busErrors, tx
      ensures Valid()
      ensures processed == Drained(|old(tx.Contents())|, budget, hal, 0) <= |old(tx.Contents())|
      ensures handed == old(handed) + old(tx.Contents())[..processed]
      ensures tx.Contents() == old(tx.Contents())[processed..]
      ensures var stopped := processed < budget && processed < |old(tx.Contents())|;
              && txMailboxExhausted == Raised(old(txMailboxExhausted), stopped && hal(processed) == Exhausted)
              && busErrors == Raised(old(busErrors), stopped && hal(processed) == AddFails)
    {
      ghost var queued, before := tx.Contents(), handed;
      NothingTaken(before, queued);
      processed := 0;
      var going := true;
      while going && processed < budget
        invariant Valid() && processed <= |queued| && processed <= budget
        invariant tx.Contents() == queued[processed..] && handed == before + queued[..processed]
        invariant Drained(|queued|, budget, hal, 0)
               == if going then Drained(|queued|, budget, hal, processed) else processed
        invariant var stopped := !going && processed < |queued|;
                  && txMailboxExhausted == Raised(old(txMailboxExhausted), stopped && hal(processed) == Exhausted)
                  && busErrors == Raised(old(busErrors), stopped && hal(processed) == AddFails)
        invariant !going ==> processed < budget
        decreases budget - processed, going
      {
        going := SendOne(hal(processed));
        if going {
          OneMoreTaken(before, queued, processed);
          processed := processed + 1;
        }
      }
    }
  }

  lemma FirstMovesOver(handed: seq<Msg>, queue: seq<Msg>)
    requires queue != []
    ensures (handed + queue[..1]) + queue[1..] == handed + queue
  {
  }

  lemma CountGrows(count: u32, handed: seq<Msg>, first: seq<Msg>)
    requires count == |handed| % TWO_32 && |first| == 1
    ensures Add32(count, 1) == |handed + first| % TWO_32
  {
    BumpWraps(|handed|);
  }

  lemma NothingTaken(handed: seq<Msg>, queue: seq<Msg>)
    ensures handed + queue[..0] == handed && queue[0..] == queue
  {
  }

  lemma OneMoreTaken(handed: seq<Msg>, queue: seq<Msg>, k: nat)
    requires k < |queue|
    ensures (handed + queue[..k]) + queue[k..][..1] == handed + queue[..k + 1]
    ensures queue[k..][1..] == queue[k + 1..]
  {
  }

  lemma RingNeverOverfull(ring: FrameRing)
    requires ring.Valid()
    ensures |ring.Contents()| <= ring.slots.Length - 1
  {
  }
}
