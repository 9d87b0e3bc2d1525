/**
 * Two-slot Flash persistence. Storing erases the slot that does not hold the newest image, programs the
 * new image behind its first word, and programs the magic word last. Power may fail, or the driver may
 * report an error, at any erase or word.
 *
 * Erasing sets every bit and programming a word can only clear bits, so a word is programmed once after an
 * erase. A word whose programming was cut short may hold any value.
 *
 * Everything about atomicity is proved for an arbitrary checksum function: it rests on the order of the
 * writes alone. What the actual CRC-32 adds, the detection of damage to a finished image, is proved in
 * `FlashImage`.
 */
module FlashStorage {
  import opened Words

  const MAGIC: bv32 := 0x434F5354
  const VERSION: bv32 := 1
  const ERASED: bv32 := 0xFFFFFFFF
  const HEADER: nat := 5

  /** Words of a slot: magic, version, sequence, length in bytes, CRC, then the payload. */
  type Slot = seq<bv32>

  datatype Which = SlotA | SlotB {
    function Other(): Which {
      if SlotA? then SlotB else SlotA
    }
  }

  datatype Flash = Flash(a: Slot, b: Slot) {
    function At(w: Which): Slot {
      if w.SlotA? then a else b
    }

    function With(w: Which, s: Slot): Flash {
      if w.SlotA? then Flash(s, b) else Flash(a, s)
    }
  }

  /**
   * How far one attempt gets. `EraseCut` leaves the slot as it was or with contents that do not form a
   * valid image; `WordCut(k, torn)` stops in the k-th programmed word, leaving `torn` there.
   */
  datatype Fault =
    | NoFault
    | UnlockFails
    | EraseCut(left: Option<Slot>)
    | WordCut(k: nat, torn: bv32)

  datatype Attempt = Attempt(payload: seq<bv32>, fault: Fault)

  /** The k-th word to be programmed: everything behind the magic word in order, the magic word last. */
  function Order(size: nat, k: nat): nat
    requires k < size
  {
    if k == size - 1 then 0 else k + 1
  }

  /** An erased slot into which the first `count` words of `image`, in programming order, have gone. */
  function Partly(image: Slot, count: nat): (s: Slot)
    requires count < |image|
    ensures |s| == |image|
  {
    seq(|image|, i requires 0 <= i < |image| => if 1 <= i <= count then image[i] else ERASED)
  }

  /** The attempt's magic word was completed: judged from the attempt alone. */
  predicate Committed(width: nat, at: Attempt) {
    && |at.payload| == width
    && (at.fault.NoFault? || at.fault == WordCut(HEADER + width - 1, MAGIC))
  }

  /** The payload of the last committed attempt, or `first` if none was. */
  function LastCommitted(first: Option<seq<bv32>>, width: nat, attempts: seq<Attempt>): Option<seq<bv32>> {
    if attempts == [] then first
    else
      var n := |attempts| - 1;
      if Committed(width, attempts[n]) then Some(attempts[n].payload) else LastCommitted(first, width, attempts[..n])
  }

  function Successor32(n: bv32): bv32 {
    n + 1
  }

  /** `n` counted on by the committed attempts, modulo 2^32. */
  function Count(n: bv32, width: nat, attempts: seq<Attempt>): bv32
    decreases |attempts|
  {
    if attempts == [] then n
    else Count(if Committed(width, attempts[0]) then Successor32(n) else n, width, attempts[1..])
  }

  /** The persisted structure: its size in words and the checksum over its payload. */
  datatype Layout = Layout(width: nat, crc: seq<bv32> -> bv32) {

    /** An image fits its 256 KiB sector. */
    predicate Fits() {
      4 * (HEADER + width) <= 0x4_0000
    }

    predicate Shaped(f: Flash) {
      Fits() && |f.a| == |f.b| == HEADER + width
    }

    function LengthWord(): bv32
      requires Fits()
    {
      (4 * width) as bv32
    }

    function Image(payload: seq<bv32>, sequence: bv32): (s: Slot)
      requires Fits() && |payload| == width
      ensures |s| == HEADER + width && s[HEADER..] == payload
    {
      [MAGIC, VERSION, sequence, LengthWord(), crc(payload)] + payload
    }

    predicate ImageValid(s: Slot)
      requires Fits() && |s| == HEADER + width
    {
      s[0] == MAGIC && s[1] == VERSION && s[3] == LengthWord() && s[4] == crc(s[HEADER..])
    }

    /** Nothing passes for an image but magic, version, some number, the length in bytes, checksum and payload. */
    lemma ImageValidExactly(s: Slot)
      requires Fits() && |s| == HEADER + width
      ensures var payload := s[5..];
              ImageValid(s) <==> s == [0x434F5354, 1, s[2], (4 * |payload|) as bv32, crc(payload)] + payload
      ensures ImageValid(s) <==> s == Image(s[HEADER..], s[2])
    {
      assert s == s[..HEADER] + s[HEADER..];
      if ImageValid(s) {
        assert s[..HEADER] == [MAGIC, VERSION, s[2], LengthWord(), crc(s[HEADER..])];
      }
    }

    // -------------------------------------------------------------- reading

    function Newest(f: Flash): Option<Which>
      requires Shaped(f)
    {
      if !ImageValid(f.a) then (if ImageValid(f.b) then Some(SlotB) else None)
      else if !ImageValid(f.b) then Some(SlotA)
      else if Later(f.a[2], f.b[2]) then Some(SlotA)
      else Some(SlotB)
    }

    function NextSequence(f: Flash): bv32
      requires Shaped(f)
    {
      match Newest(f)
      case None => 1
      case Some(w) => f.At(w)[2] + 1
    }

    /** The sequence number of the newest image, 0 without one. */
    function Number(f: Flash): bv32
      requires Shaped(f)
    {
      match Newest(f)
      case None => 0
      case Some(w) => f.At(w)[2]
    }

    function Restored(f: Flash): Option<seq<bv32>>
      requires Shaped(f)
    {
      match Newest(f)
      case None => None
      case Some(w) => Some(f.At(w)[HEADER..])
    }

    // -------------------------------------------------------------- storing

    function Target(f: Flash): Which
      requires Shaped(f)
    {
      if Newest(f) == Some(SlotA) then SlotB else SlotA
    }

    predicate FaultOk(fault: Fault, image: Slot)
      requires Fits() && |image| == HEADER + width
    {
      match fault
      case EraseCut(Some(s)) => |s| == |image| && !ImageValid(s)
      case WordCut(k, _) => k < |image|
      case _ => true
    }

    /** What an attempt leaves in the slot it works on. */
    function Written(before: Slot, image: Slot, fault: Fault): (s: Slot)
      requires Fits() && |before| == |image| == HEADER + width && FaultOk(fault, image)
      ensures |s| == HEADER + width
    {
      match fault
      case NoFault => image
      case UnlockFails => before
      case EraseCut(None) => before
      case EraseCut(Some(s)) => s
      case WordCut(k, torn) => Partly(image, k)[Order(|image|, k) := torn]
    }

    predicate AttemptOk(f: Flash, at: Attempt)
      requires Shaped(f)
    {
      |at.payload| == width ==> FaultOk(at.fault, Image(at.payload, NextSequence(f)))
    }

    function Stored(f: Flash, at: Attempt): (f': Flash)
      requires Shaped(f) && AttemptOk(f, at)
      ensures Shaped(f')
    {
      if |at.payload| != width then f
      else f.With(Target(f), Written(f.At(Target(f)), Image(at.payload, NextSequence(f)), at.fault))
    }

    // ---------------------------------------------------------- one attempt

    /** Two valid images carry adjacent sequence numbers modulo 2^32. */
    ghost predicate Adjacent(f: Flash)
      requires Shaped(f)
    {
      ImageValid(f.a) && ImageValid(f.b) ==> Follows(f.a[2], f.b[2]) || Follows(f.b[2], f.a[2])
    }

    static predicate Later(x: bv32, y: bv32) {
      x - y < 0x80000000
    }

    static predicate Follows(x: bv32, y: bv32) {
      x == y + 1
    }

    static lemma LaterIsNewer(x: bv32, y: bv32)
      requires Follows(x, y)
      ensures Later(x, y) && !Later(y, x)
    {
    }

    /** Of two valid images with adjacent numbers the signed comparison picks the later one, wrap or not. */
    lemma NewestIsLater(f: Flash, w: Which)
      requires Shaped(f) && ImageValid(f.a) && ImageValid(f.b)
      requires Follows(f.At(w)[2], f.At(w.Other())[2])
      ensures Newest(f) == Some(w)
    {
      var x, y := f.At(w)[2], f.At(w.Other())[2];
      LaterIsNewer(x, y);
      if w.SlotA? {
        assert Newest(f) == if Later(x, y) then Some(SlotA) else Some(SlotB);
      } else {
        assert Newest(f) == if Later(y, x) then Some(SlotA) else Some(SlotB);
      }
    }

    /**
     * An attempt leaves a valid image, the intended one, in its slot exactly if it was committed; otherwise
     * the slot is as it was or holds no valid image.
     */
    lemma WrittenIsValid(before: Slot, payload: seq<bv32>, sequence: bv32, fault: Fault)
      requires Fits() && |payload| == width && |before| == HEADER + width
      requires FaultOk(fault, Image(payload, sequence))
      ensures var image := Image(payload, sequence);
              var after := Written(before, image, fault);
              if Committed(width, Attempt(payload, fault)) then after == image && ImageValid(after)
              else after == before || !ImageValid(after)
    {
      var image := Image(payload, sequence);
      if fault.WordCut? && fault.k == |image| - 1 && fault.torn == MAGIC {
        assert Written(before, image, fault) == image;
      }
    }

    /** The slot to be erased is never the newest one. */
    lemma TargetIsOlder(f: Flash)
      requires Shaped(f)
      ensures Newest(f) == if ImageValid(f.At(Target(f).Other())) then Some(Target(f).Other()) else None
    {
    }

    lemma NextFollows(f: Flash)
      requires Shaped(f) && ImageValid(f.At(Target(f).Other()))
      ensures Follows(NextSequence(f), f.At(Target(f).Other())[2])
    {
      TargetIsOlder(f);
    }

    lemma LaterImageIsNewest(f: Flash, t: Which, image: Slot, n: bv32)
      requires Shaped(f) && t == Target(f) && |image| == HEADER + width && ImageValid(image) && image[2] == n
      requires ImageValid(f.At(t.Other())) ==> Follows(n, f.At(t.Other())[2])
      ensures Newest(f.With(t, image)) == Some(t) && Adjacent(f.With(t, image))
    {
      if ImageValid(f.At(t.Other())) {
        NewestIsLater(f.With(t, image), t);
      }
    }

    /** An image with the next sequence number in the older slot becomes the newest image. */
    lemma SuccessorIsNewest(f: Flash, t: Which, image: Slot)
      requires Shaped(f) && t == Target(f) && |image| == HEADER + width && ImageValid(image)
      requires image[2] == NextSequence(f)
      ensures Newest(f.With(t, image)) == Some(t) && Adjacent(f.With(t, image))
    {
      if ImageValid(f.At(t.Other())) {
        NextFollows(f);
      }
      LaterImageIsNewest(f, t, image, image[2]);
    }

    /** Losing the older slot's contents changes nothing that can be restored. */
    lemma WreckIsIgnored(f: Flash, t: Which, wreck: Slot)
      requires Shaped(f) && t == Target(f) && |wreck| == HEADER + width && !ImageValid(wreck)
      ensures Newest(f.With(t, wreck)) == Newest(f) && Adjacent(f.With(t, wreck))
    {
      TargetIsOlder(f);
    }

    /**
     * One attempt, from any state reached so far: the newest image is never touched; what can be restored
     * afterwards is the new payload if the attempt was committed and the old one if not; sequence numbers
     * stay adjacent.
     */
    lemma StoreIsAtomic(f: Flash, at: Attempt)
      requires Shaped(f) && Adjacent(f) && AttemptOk(f, at)
      ensures var f' := Stored(f, at);
              && (Newest(f).Some? ==> f'.At(Newest(f).value) == f.At(Newest(f).value))
              && Restored(f') == (if Committed(width, at) then Some(at.payload) else Restored(f))
              && Adjacent(f')
    {
      if |at.payload| == width {
        TargetIsOlder(f);
        var t := Target(f);
        var image := Image(at.payload, NextSequence(f));
        var after := Written(f.At(t), image, at.fault);
        WrittenIsValid(f.At(t), at.payload, NextSequence(f), at.fault);
        if Committed(width, at) {
          SuccessorIsNewest(f, t, image);
        } else if !ImageValid(after) {
          WreckIsIgnored(f, t, after);
        } else {
          assert f.With(t, f.At(t)) == f;
        }
      }
    }

    lemma NextIsOneMore(f: Flash)
      requires Shaped(f)
      ensures NextSequence(f) == Successor32(Number(f))
    {
    }

    lemma NewestNumber(f: Flash, w: Which, n: bv32)
      requires Shaped(f) && Newest(f) == Some(w) && f.At(w)[2] == n
      ensures Number(f) == n
    {
    }

    /** An attempt adds one to the number of the newest image if it was committed, and nothing if not. */
    lemma StoreNumbers(f: Flash, at: Attempt)
      requires Shaped(f) && Adjacent(f) && AttemptOk(f, at)
      ensures Number(Stored(f, at)) == if Committed(width, at) then NextSequence(f) else Number(f)
    {
      if |at.payload| == width {
        TargetIsOlder(f);
        var t := Target(f);
        var image := Image(at.payload, NextSequence(f));
        var after := Written(f.At(t), image, at.fault);
        WrittenIsValid(f.At(t), at.payload, NextSequence(f), at.fault);
        if Committed(width, at) {
          SuccessorIsNewest(f, t, image);
          NewestNumber(f.With(t, image), t, NextSequence(f));
        } else if !ImageValid(after) {
          WreckIsIgnored(f, t, after);
        } else {
          assert f.With(t, f.At(t)) == f;
        }
      }
    }

    // ------------------------------------------------------------- all runs

    ghost predicate AllOk(f: Flash, attempts: seq<Attempt>)
      requires Shaped(f)
      decreases |attempts|
    {
      attempts == [] || (AttemptOk(f, attempts[0]) && AllOk(Stored(f, attempts[0]), attempts[1..]))
    }

    function StoredAll(f: Flash, attempts: seq<Attempt>): (f': Flash)
      requires Shaped(f) && AllOk(f, attempts)
      ensures Shaped(f')
      decreases |attempts|
    {
      if attempts == [] then f else StoredAll(Stored(f, attempts[0]), attempts[1..])
    }

    lemma {:induction false} RunIsAtomic(f: Flash, attempts: seq<Attempt>)
      requires Shaped(f) && Adjacent(f) && AllOk(f, attempts)
      ensures var f' := StoredAll(f, attempts);
              Adjacent(f') && Restored(f') == LastCommitted(Restored(f), width, attempts)
      decreases |attempts|
    {
      if attempts != [] {
        StoreIsAtomic(f, attempts[0]);
        LastCommittedFromFront(Restored(f), width, attempts);
        RunIsAtomic(Stored(f, attempts[0]), attempts[1..]);
      }
    }

    lemma FirstCounts(f: Flash, attempts: seq<Attempt>) returns (f': Flash)
      requires Shaped(f) && Adjacent(f) && AllOk(f, attempts) && attempts != []
      ensures Shaped(f') && Adjacent(f') && AllOk(f', attempts[1..])
      ensures StoredAll(f, attempts) == StoredAll(f', attempts[1..])
      ensures Count(Number(f), width, attempts) == Count(Number(f'), width, attempts[1..])
    {
      hide Number;
      hide NextSequence;
      hide Successor32;
      f' := Stored(f, attempts[0]);
      StoreIsAtomic(f, attempts[0]);
      StoreNumbers(f, attempts[0]);
      NextIsOneMore(f);
    }

    lemma {:induction false} RunNumbers(f: Flash, attempts: seq<Attempt>)
      requires Shaped(f) && Adjacent(f) && AllOk(f, attempts)
      ensures Number(StoredAll(f, attempts)) == Count(Number(f), width, attempts)
      decreases |attempts|
    {
      hide Number;
      hide Adjacent;
      if attempts != [] {
        var f' := FirstCounts(f, attempts);
        RunNumbers(f', attempts[1..]);
      }
    }

    /** From blank Flash the newest image is numbered by the committed attempts, from one on. */
    lemma NewestIsNumbered(attempts: seq<Attempt>)
      requires Fits() && AllOk(Blank(), attempts)
      ensures var f := StoredAll(Blank(), attempts);
              Newest(f).Some? ==> f.At(Newest(f).value)[2] == Count(0, width, attempts)
    {
      RunNumbers(Blank(), attempts);
    }

    function Blank(): (f: Flash)
      requires Fits()
      ensures Shaped(f) && Newest(f) == None
    {
      var s := seq(HEADER + width, _ => ERASED);
      Flash(s, s)
    }

    /**
     * Power-loss atomicity. From blank Flash, after any number of attempts each cut anywhere, restoring
     * gives the payload of the last attempt whose magic word was completed: never a mixture, never an older
     * image, and nothing before the first such attempt. If both slots are valid their numbers are adjacent.
     */
    lemma PowerLossAtomicity(attempts: seq<Attempt>)
      requires Fits() && AllOk(Blank(), attempts)
      ensures var f := StoredAll(Blank(), attempts);
              Adjacent(f) && Restored(f) == LastCommitted(None, width, attempts)
    {
      RunIsAtomic(Blank(), attempts);
    }
  }

  lemma {:induction false} LastCommittedFromFront(first: Option<seq<bv32>>, width: nat, attempts: seq<Attempt>)
    requires attempts != []
    ensures LastCommitted(first, width, attempts)
              == LastCommitted(if Committed(width, attempts[0]) then Some(attempts[0].payload) else first, width,
                               attempts[1..])
    decreases |attempts|
  {
    var n := |attempts| - 1;
    if n > 0 {
      assert attempts[..n][1..] == attempts[1..][..n - 1];
      LastCommittedFromFront(first, width, attempts[..n]);
    }
  }
}
