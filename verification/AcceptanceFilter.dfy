/**
 * The acceptance filter of the CAN controller: a bounded list of identifiers, packed four to a bank.
 * A bank in 16-bit list mode lets exactly the four identifiers through that it names.
 */
module AcceptanceFilter {
  import opened Words

  const MAX_IDS: nat := 20
  const BANKS: nat := 14
  const GLOBAL_ID: u16 := 0x7FF
  const UDS_RX_ID: u16 := 0x7E0
  const UDS_TX_ID: u16 := 0x7E8

  // ------------------------------------------------------------------ the list

  function Masked(id: u32): u16 {
    id % 0x800
  }

  /** The list with one more identifier, or None when it is refused. */
  function AddTo(ids: seq<u16>, capacity: nat, id: u32): Option<seq<u16>> {
    if Masked(id) == GLOBAL_ID then None
    else if Masked(id) in ids then Some(ids)
    else if |ids| >= capacity then None
    else Some(ids + [Masked(id)])
  }

  function AddAll(ids: seq<u16>, capacity: nat, requests: seq<u32>): Option<seq<u16>>
    decreases |requests|
  {
    if requests == [] then Some(ids)
    else
      match AddTo(ids, capacity, requests[0])
      case None => None
      case Some(ids') => AddAll(ids', capacity, requests[1..])
  }

  predicate Distinct(ids: seq<u16>) {
    forall i, j :: 0 <= i < j < |ids| ==> ids[i] != ids[j]
  }

  predicate Asks(requests: seq<u32>, id: u16) {
    exists i :: 0 <= i < |requests| && Masked(requests[i]) == id
  }

  lemma AsksFirst(requests: seq<u32>, id: u16)
    requires requests != []
    ensures Asks(requests, id) <==> Masked(requests[0]) == id || Asks(requests[1..], id)
  {
    if Asks(requests, id) {
      var i :| 0 <= i < |requests| && Masked(requests[i]) == id;
      if i > 0 {
        assert requests[1..][i - 1] == requests[i];
      }
    }
    if Asks(requests[1..], id) {
      var i :| 0 <= i < |requests[1..]| && Masked(requests[1..][i]) == id;
      assert requests[i + 1] == requests[1..][i];
    }
  }

  /**
   * With room for all requests, only the global identifier is ever the cause of failure; and on success
   * the list holds exactly what it held and what was asked for, each identifier once, the old ones in front.
   */
  lemma {:induction false} AddAllExactly(ids: seq<u16>, capacity: nat, requests: seq<u32>)
    requires |ids| + |requests| <= capacity && Distinct(ids)
    ensures var r := AddAll(ids, capacity, requests);
            && (r.Some? <==> !Asks(requests, 0x7FF))
            && (r.Some? ==>
                  && Distinct(r.value) && ids <= r.value && |r.value| <= |ids| + |requests|
                  && forall id: u16 :: id in r.value <==> id in ids || Asks(requests, id))
    decreases |requests|
  {
    if requests != [] {
      AsksFirst(requests, GLOBAL_ID);
      var first := AddTo(ids, capacity, requests[0]);
      if first.Some? {
        AddAllExactly(first.value, capacity, requests[1..]);
        forall id: u16 ensures Asks(requests, id) <==> Masked(requests[0]) == id || Asks(requests[1..], id) {
          AsksFirst(requests, id);
        }
      }
    }
  }

  // ----------------------------------------------------------------- the banks

  datatype Bank = Bank(slots: seq<u16>)

  /** The controller compares a standard data frame's identifier, shifted up by five bits, with each slot. */
  ghost predicate Accepts(banks: seq<Option<Bank>>, id: u16) {
    exists b :: 0 <= b < |banks| && Names(banks[b], id)
  }

  predicate Names(bank: Option<Bank>, id: u16) {
    bank.Some? && id as int * 32 in bank.value.slots
  }

  function Slot(ids: seq<u16>, i: nat): u16 {
    if i < |ids| then (ids[i] as int * 32) % 0x1_0000 else 0
  }

  function BankOf(ids: seq<u16>, b: nat): Bank {
    Bank([Slot(ids, 4 * b), Slot(ids, 4 * b + 1), Slot(ids, 4 * b + 2), Slot(ids, 4 * b + 3)])
  }

  const UDS_BANK := Bank([UDS_RX_ID * 32, UDS_TX_ID * 32, 0, 0])

  function BankCount(n: nat): nat {
    (n + 3) / 4
  }

  predicate Eleven(ids: seq<u16>) {
    forall i :: 0 <= i < |ids| ==> ids[i] < 0x800
  }

  lemma ListedIsNamed(ids: seq<u16>, i: nat)
    requires i < |ids| && Eleven(ids)
    ensures i / 4 < BankCount(|ids|) && Names(Some(BankOf(ids, i / 4)), ids[i])
  {
    var slots := BankOf(ids, i / 4).slots;
    assert slots[i % 4] == Slot(ids, i);
  }

  lemma NamedIsListed(ids: seq<u16>, b: nat, id: u16)
    requires Eleven(ids) && id < 0x800 && Names(Some(BankOf(ids, b)), id)
    ensures id in ids || id == 0
  {
    var slots := BankOf(ids, b).slots;
    var j :| 0 <= j < 4 && slots[j] == id * 32;
    assert slots[j] == Slot(ids, 4 * b + j);
  }

  /** Padding adds nothing: with the NMT identifier in the list, the banks accept exactly the list. */
  lemma BanksAcceptExactlyTheList(ids: seq<u16>, banks: seq<Option<Bank>>, uds: bool, id: u16)
    requires Eleven(ids) && 0 in ids && id < 0x800
    requires BankCount(|ids|) + 1 <= |banks|
    requires forall b :: 0 <= b < BankCount(|ids|) ==> banks[b] == Some(BankOf(ids, b))
    requires banks[BankCount(|ids|)] == if uds then Some(UDS_BANK) else None
    requires forall b :: BankCount(|ids|) < b < |banks| ==> banks[b] == None
    ensures Accepts(banks, id) <==> id in ids || (uds && id in {0x7E0, 0x7E8})
  {
    if id in ids {
      var i :| 0 <= i < |ids| && ids[i] == id;
      ListedIsNamed(ids, i);
      assert Names(banks[i / 4], id);
    }
    if uds && id in {UDS_RX_ID, UDS_TX_ID} {
      assert Names(banks[BankCount(|ids|)], id);
    }
    if Accepts(banks, id) {
      var b :| 0 <= b < |banks| && Names(banks[b], id);
      if b < BankCount(|ids|) {
        NamedIsListed(ids, b, id);
      }
    }
  }

  // ---------------------------------------------------------------- the builder

  /** The object-dictionary entries and options the builder reads. */
  datatype Profile = Profile(nodeId: byte, rpdos: seq<u32>, sdoServerRx: u32, sdoClientRx: u32, peer: Option<byte>,
                             uds: bool)

  predicate ProfileOk(p: Profile) {
    |p.rpdos| == 4
  }

  /** A COB-ID asks for its identifier unless its top bit says it is not in use. */
  function IfUsed(cobId: u32): seq<u32> {
    if cobId < TWO_31 then [cobId % 0x1_0000] else []
  }

  function UsedPdos(cobIds: seq<u32>): (r: seq<u32>)
    ensures |r| <= |cobIds|
  {
    if cobIds == [] then [] else IfUsed(cobIds[0]) + UsedPdos(cobIds[1..])
  }

  function Requests(p: Profile): (r: seq<u32>)
    requires ProfileOk(p)
    ensures 1 <= |r| <= 14 && r[0] == 0
  {
    Head(p) + UsedPdos(p.rpdos) + IfUsed(p.sdoServerRx) + IfUsed(p.sdoClientRx) + Tail(p)
  }

  /** What the node must hear: its CANopen services and the objects its dictionary has in use. */
  predicate Wanted(p: Profile, id: u16)
    requires ProfileOk(p)
  {
    || id == 0 || id == 0x80 || id == 0x100 || id == 0x80 + p.nodeId
    || id == 0x700 + p.nodeId || id == 0x7E4 || id == 0x7E5
    || (p.peer.Some? && id == 0x700 + p.peer.value)
    || (exists i :: 0 <= i < 4 && InUse(p.rpdos[i], id))
    || InUse(p.sdoServerRx, id) || InUse(p.sdoClientRx, id)
  }

  predicate InUse(cobId: u32, id: u16) {
    cobId < TWO_31 && cobId % 0x800 == id
  }

  lemma AsksEither(a: seq<u32>, b: seq<u32>, id: u16)
    ensures Asks(a + b, id) <==> Asks(a, id) || Asks(b, id)
  {
    if Asks(a, id) {
      var i :| 0 <= i < |a| && Masked(a[i]) == id;
      assert (a + b)[i] == a[i];
    }
    if Asks(b, id) {
      var i :| 0 <= i < |b| && Masked(b[i]) == id;
      assert (a + b)[|a| + i] == b[i];
    }
  }

  lemma LowBits(x: nat)
    ensures x % 0x1_0000 % 0x800 == x % 0x800
  {
    var q, r := x / 0x1_0000, x % 0x1_0000;
    assert x == 0x800 * (32 * q + r / 0x800) + r % 0x800;
  }

  lemma AsksIfUsed(cobId: u32, id: u16)
    ensures Asks(IfUsed(cobId), id) <==> InUse(cobId, id)
  {
    LowBits(cobId);
    if cobId < TWO_31 {
      assert Masked(IfUsed(cobId)[0]) == Masked(cobId);
    }
  }

  lemma {:induction false} AsksUsedPdos(cobIds: seq<u32>, id: u16)
    ensures Asks(UsedPdos(cobIds), id) <==> exists i :: 0 <= i < |cobIds| && InUse(cobIds[i], id)
  {
    if cobIds != [] {
      AsksUsedPdos(cobIds[1..], id);
      AsksEither(IfUsed(cobIds[0]), UsedPdos(cobIds[1..]), id);
      AsksIfUsed(cobIds[0], id);
      if i :| 0 <= i < |cobIds[1..]| && InUse(cobIds[1..][i], id) {
        assert InUse(cobIds[i + 1], id);
      }
      if i :| 0 < i < |cobIds| && InUse(cobIds[i], id) {
        assert InUse(cobIds[1..][i - 1], id);
      }
    }
  }

  function Head(p: Profile): seq<u32> {
    [0, 0x80, 0x100, 0x80 + p.nodeId]
  }

  function Tail(p: Profile): seq<u32> {
    [0x700 + p.nodeId] + (if p.peer.Some? then [0x700 + p.peer.value] else []) + [0x7E4, 0x7E5]
  }

  lemma AsksHead(p: Profile, id: u16)
    ensures Asks(Head(p), id) <==> id == 0 || id == 0x80 || id == 0x100 || id == 0x80 + p.nodeId
  {
    var h := Head(p);
    assert Masked(h[0]) == 0 && Masked(h[1]) == 0x80 && Masked(h[2]) == 0x100 && Masked(h[3]) == 0x80 + p.nodeId;
  }

  lemma AsksTail(p: Profile, id: u16)
    ensures Asks(Tail(p), id) <==> id == 0x700 + p.nodeId || id == 0x7E4 || id == 0x7E5
                                   || (p.peer.Some? && id == 0x700 + p.peer.value)
  {
    var t := Tail(p);
    assert Masked(t[0]) == 0x700 + p.nodeId && Masked(t[|t| - 2]) == 0x7E4 && Masked(t[|t| - 1]) == 0x7E5;
    if p.peer.Some? {
      assert Masked(t[1]) == 0x700 + p.peer.value;
    }
  }

  /** The builder asks for exactly what the node must hear. */
  lemma RequestsAreWanted(p: Profile, id: u16)
    requires ProfileOk(p)
    ensures Asks(Requests(p), id) <==> Wanted(p, id)
  {
    AsksHead(p, id);
    AsksUsedPdos(p.rpdos, id);
    AsksIfUsed(p.sdoServerRx, id);
    AsksIfUsed(p.sdoClientRx, id);
    AsksTail(p, id);
    AsksEither(Head(p), UsedPdos(p.rpdos), id);
    AsksEither(Head(p) + UsedPdos(p.rpdos), IfUsed(p.sdoServerRx), id);
    AsksEither(Head(p) + UsedPdos(p.rpdos) + IfUsed(p.sdoServerRx), IfUsed(p.sdoClientRx), id);
    AsksEither(Head(p) + UsedPdos(p.rpdos) + IfUsed(p.sdoServerRx) + IfUsed(p.sdoClientRx), Tail(p), id);
  }

  class IdList {
    const ids: array<u16>
    var count: nat

    ghost predicate Valid()
      reads this, ids
    {
      count <= ids.Length
    }

    ghost function Contents(): seq<u16>
      reads this, ids
      requires Valid()
    {
      ids[..count]
    }

    constructor (capacity: nat)
      ensures Valid() && fresh(ids) && ids.Length == capacity && Contents() == []
    {
      ids := new u16[capacity](_ => 0);
      count := 0;
    }

    method Add(id: u32) returns (ok: bool)
      requires Valid()
      modifies this, ids
      ensures Valid()
      ensures var r := AddTo(old(Contents()), ids.Length, id);
              ok == r.Some? && Contents() == if ok then r.value else old(Contents())
    {
      var masked := id % 0x800;
      if masked == GLOBAL_ID {
        return false;
      }
      for i := 0 to count
        invariant masked !in ids[..i]
      {
        if ids[i] == masked {
          assert masked in Contents();
          return true;
        }
      }
      if count >= ids.Length {
        return false;
      }
      ids[count] := masked;
      count := count + 1;
      ok := true;
    }

    method AddRequests(requests: seq<u32>) returns (ok: bool)
      requires Valid()
      modifies this, ids
      ensures Valid()
      ensures var r := AddAll(old(Contents()), ids.Length, requests);
              ok == r.Some? && (ok ==> Contents() == r.value)
    {
      for i := 0 to |requests|
        invariant Valid()
        invariant AddAll(Contents(), ids.Length, requests[i..]) == AddAll(old(Contents()), ids.Length, requests)
      {
        ok := Add(requests[i]);
        assert requests[i..][1..] == requests[i + 1..];
        if !ok {
          return;
        }
      }
      ok := true;
    }
  }

  /** The list the builder ends up with. */
  lemma RequestsFit(p: Profile)
    requires ProfileOk(p)
    ensures var r := AddAll([], MAX_IDS, Requests(p));
            && (r.Some? <==> !Asks(Requests(p), 0x7FF))
            && (r.Some? ==>
                  && |r.value| <= 14 && Eleven(r.value) && 0 in r.value
                  && forall id: u16 :: id in r.value <==> Asks(Requests(p), id))
  {
    var q := Requests(p);
    AddAllExactly([], MAX_IDS, q);
    assert Masked(q[0]) == 0;
    var r := AddAll([], MAX_IDS, q);
    if r.Some? {
      assert Asks(q, 0);
      forall i | 0 <= i < |r.value| ensures r.value[i] < 0x800 {
        assert r.value[i] in r.value;
      }
    }
  }

  /** Bank by bank into the controller; `works` says which configuration calls succeed. */
  method PackBanks(list: IdList, banks: array<Option<Bank>>, works: nat -> bool) returns (ok: bool)
    requires list.Valid() && BankCount(list.count) < banks.Length && banks.Length == BANKS
    modifies banks
    ensures ok <==> forall b :: 0 <= b < BankCount(list.count) ==> works(b)
    ensures ok ==> forall b :: 0 <= b < BankCount(list.count) ==> banks[b] == Some(BankOf(list.Contents(), b))
    ensures forall b :: BankCount(list.count) <= b < banks.Length ==> banks[b] == old(banks[b])
  {
    ghost var ids := list.Contents();
    var count := list.count;
    for b := 0 to BankCount(count)
      invariant forall k :: 0 <= k < b ==> works(k) && banks[k] == Some(BankOf(ids, k))
      invariant forall k :: b <= k < banks.Length ==> banks[k] == old(banks[k])
    {
      if !works(b) {
        return false;
      }
      var base := 4 * b;
      banks[b] := Some(Bank([PaddedSlot(list, base), PaddedSlot(list, base + 1),
                             PaddedSlot(list, base + 2), PaddedSlot(list, base + 3)]));
    }
    ok := true;
  }

  function PaddedSlot(list: IdList, i: nat): (slot: u16)
    requires list.Valid()
    reads list, list.ids
    ensures slot == Slot(list.Contents(), i)
  {
    if i < list.count then (list.ids[i] as int * 32) % 0x1_0000 else 0
  }

  /** How many banks a profile takes. */
  ghost function BanksNeeded(p: Profile): nat
    requires ProfileOk(p)
  {
    match AddAll([], MAX_IDS, Requests(p))
    case None => 0
    case Some(ids) => BankCount(|ids|) + if p.uds then 1 else 0
  }

  /**
   * The builder. It succeeds exactly when there is a controller, the node id is one, no wanted
   * identifier is the global one and every bank it takes can be configured: the capacity of the list is never the
   * cause. From no active banks, success means that the controller accepts exactly the wanted
   * identifiers and, with diagnostics compiled in, the diagnostic pair.
   */
  method ConfigureCanFilter(hasController: bool, p: Profile, banks: array<Option<Bank>>, works: nat -> bool)
    returns (ok: bool)
    requires ProfileOk(p) && banks.Length == BANKS
    requires forall b :: 0 <= b < banks.Length ==> banks[b] == None
    modifies banks
    ensures ok <==> && hasController && 1 <= p.nodeId <= 127 && !Wanted(p, 0x7FF)
                    && forall b :: 0 <= b < BanksNeeded(p) ==> works(b)
    ensures ok ==> forall id: u16 :: id < 0x800 ==>
                     (Accepts(banks[..], id) <==> Wanted(p, id) || (p.uds && id in {0x7E0, 0x7E8}))
  {
    if !hasController || p.nodeId == 0 || p.nodeId > 127 {
      return false;
    }
    RequestsFit(p);
    RequestsAreWanted(p, GLOBAL_ID);
    var list := new IdList(MAX_IDS);
    ok := list.AddRequests(Requests(p));
    if !ok {
      return;
    }
    ok := PackBanks(list, banks, works);
    if !ok {
      return;
    }
    if p.uds {
      var bank := BankCount(list.count);
      if !works(bank) {
        return false;
      }
      banks[bank] := Some(UDS_BANK);
    }
    forall id: u16 | id < 0x800
      ensures Accepts(banks[..], id) <==> Wanted(p, id) || (p.uds && id in {0x7E0, 0x7E8})
    {
      RequestsAreWanted(p, id);
      BanksAcceptExactlyTheList(list.Contents(), banks[..], p.uds, id);
    }
    ok := list.count != 0;
  }
}
