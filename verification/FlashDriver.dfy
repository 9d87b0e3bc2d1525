/** The storage backend as it runs: two slots of words, erased and programmed in place. */
module FlashDriver {
  import opened Words
  import opened FlashStorage

  class FlashBackend {
    const layout: Layout
    const slotA: array<bv32>
    const slotB: array<bv32>

    ghost predicate Shaped()
      reads this, slotA, slotB
    {
      slotA != slotB && layout.Shaped(Contents())
    }

    /** What every store keeps, completed or not: two valid images have adjacent sequence numbers. */
    ghost predicate Valid()
      reads this, slotA, slotB
    {
      Shaped() && layout.Adjacent(Contents())
    }

    ghost function Contents(): Flash
      reads this, slotA, slotB
    {
      Flash(slotA[..], slotB[..])
    }

    constructor (layout: Layout)
      requires layout.Fits()
      ensures Valid() && fresh(slotA) && fresh(slotB) && this.layout == layout && Contents() == layout.Blank()
    {
      this.layout := layout;
      slotA := new bv32[HEADER + layout.width](_ => ERASED);
      slotB := new bv32[HEADER + layout.width](_ => ERASED);
    }

    function SlotOf(w: Which): array<bv32> {
      if w.SlotA? then slotA else slotB
    }

    method IsValid(w: Which) returns (valid: bool)
      requires Shaped()
      ensures valid == layout.ImageValid(Contents().At(w))
    {
      var slot := SlotOf(w);
      valid := slot[0] == MAGIC && slot[1] == VERSION && slot[3] == layout.LengthWord()
               && slot[4] == layout.crc(slot[HEADER..]);
    }

    method FindNewest() returns (newest: Option<Which>)
      requires Shaped()
      ensures newest == layout.Newest(Contents())
    {
      var validA := IsValid(SlotA);
      var validB := IsValid(SlotB);
      if !validA {
        return if validB then Some(SlotB) else None;
      }
      if !validB {
        return Some(SlotA);
      }
      newest := if Layout.Later(slotA[2], slotB[2]) then Some(SlotA) else Some(SlotB);
    }

    method FindNextSequence() returns (sequence: bv32)
      requires Shaped()
      ensures sequence == layout.NextSequence(Contents())
    {
      var newest := FindNewest();
      match newest {
        case None => return 1;
        case Some(w) =>
          var slot := SlotOf(w);
          return slot[2] + 1;
      }
    }

    /** Program `count` erased words from index 1 on. */
    method ProgramBody(slot: array<bv32>, image: Slot, count: nat)
      requires slot.Length == |image| && count < |image|
      requires forall i :: 0 <= i < |image| ==> slot[i] == ERASED
      modifies slot
      ensures slot[..] == Partly(image, count)
    {
      for offset := 0 to count
        invariant slot[..] == Partly(image, offset)
      {
        assert slot[..][offset + 1] == ERASED;
        slot[offset + 1] := image[offset + 1];
        assert slot[..] == Partly(image, offset)[offset + 1 := image[offset + 1]];
      }
    }

    method Fill(slot: array<bv32>, words: Slot)
      requires slot.Length == |words|
      modifies slot
      ensures slot[..] == words
    {
      for i := 0 to |words|
        invariant slot[..i] == words[..i]
      {
        slot[i] := words[i];
      }
    }

    /** Erase and program one slot, up to the point the fault allows. */
    method Write(slot: array<bv32>, image: Slot, fault: Fault) returns (ok: bool)
      requires layout.Fits() && slot.Length == |image| == HEADER + layout.width && layout.FaultOk(fault, image)
      modifies slot
      ensures slot[..] == layout.Written(old(slot[..]), image, fault)
      ensures ok == fault.NoFault?
    {
      match fault {
        case UnlockFails => return false;
        case EraseCut(None) => return false;
        case EraseCut(Some(left)) => Fill(slot, left); return false;
        case WordCut(k, torn) =>
          Fill(slot, seq(|image|, _ => ERASED));
          assert forall i :: 0 <= i < |image| ==> slot[..][i] == ERASED;
          ProgramBody(slot, image, k);
          slot[Order(|image|, k)] := torn;
          return false;
        case NoFault =>
          Fill(slot, seq(|image|, _ => ERASED));
          assert forall i :: 0 <= i < |image| ==> slot[..][i] == ERASED;
          ProgramBody(slot, image, |image| - 1);
          assert slot[..][0] == ERASED;
          slot[0] := image[0];
          assert slot[..] == Partly(image, |image| - 1)[0 := image[0]] == image;
          return true;
      }
    }

    method Store(payload: seq<bv32>, fault: Fault) returns (ok: bool)
      requires Valid() && layout.AttemptOk(Contents(), Attempt(payload, fault))
      modifies slotA, slotB
      ensures Valid()
      ensures Contents() == layout.Stored(old(Contents()), Attempt(payload, fault))
      ensures ok == (fault.NoFault? && |payload| == layout.width)
      ensures layout.Restored(Contents())
           == if Committed(layout.width, Attempt(payload, fault)) then Some(payload)
              else old(layout.Restored(Contents()))
      ensures ok ==> layout.Restored(Contents()) == Some(payload)
    {
      layout.StoreIsAtomic(Contents(), Attempt(payload, fault));
      if |payload| != layout.width {
        return false;
      }
      var newest := FindNewest();
      var target := if newest == Some(SlotA) then SlotB else SlotA;
      var sequence := FindNextSequence();
      ok := Write(SlotOf(target), layout.Image(payload, sequence), fault);
    }

    method Restore(length: nat) returns (data: Option<seq<bv32>>)
      requires Valid()
      ensures data == if length == layout.width then layout.Restored(Contents()) else None
    {
      var newest := FindNewest();
      if length != layout.width || newest.None? {
        return None;
      }
      data := Some(SlotOf(newest.value)[HEADER..]);
    }
  }
}
