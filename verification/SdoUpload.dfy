/**
 * Segmented SDO upload between the mock node and its client: the node answers requests one at a time, the
 * client keeps asking for segments with alternating toggles until the last one.
 */
module SdoUpload {
  import opened Words

  const ABORT_TOGGLE: u32 := 0x0503_0000
  const ABORT_UNKNOWN_OBJECT: u32 := 0x0602_0000
  const ABORT_NO_SUB_INDEX: u32 := 0x0609_0011
  const ABORT_TYPE_MISMATCH: u32 := 0x0607_0010

  type Key = (u16, byte)

  datatype Frame = Frame(cobId: nat, data: seq<byte>)

  datatype NodeState = NodeState(nodeId: byte, objects: map<Key, seq<byte>>, pending: Option<seq<byte>>, offset: nat,
                                 toggle: byte)

  function Le16(v: u16): (r: seq<byte>)
    ensures |r| == 2
  {
    [v % 256, v / 256]
  }

  function Le32(v: u32): (r: seq<byte>)
    ensures |r| == 4
  {
    [v % 256, v / 256 % 256, v / 0x1_0000 % 256, v / 0x100_0000]
  }

  function FromLe32(b: seq<byte>): u32
    requires |b| == 4
  {
    b[0] as int + b[1] as int * 256 + b[2] as int * 0x1_0000 + b[3] as int * 0x100_0000
  }

  function IndexOf(data: seq<byte>): u16
    requires |data| == 8
  {
    data[1] as int + data[2] as int * 256
  }

  function Abort(nodeId: byte, index: u16, sub: byte, code: u32): Frame {
    Frame(0x580 + nodeId, [0x80] + Le16(index) + [sub] + Le32(code))
  }

  /** A short value travels in the first response; the command says how many of its four bytes are unused. */
  function Expedited(nodeId: byte, index: u16, sub: byte, raw: seq<byte>): Frame
    requires |raw| <= 4
  {
    Frame(0x580 + nodeId, [0x43 + 4 * (4 - |raw|)] + Le16(index) + [sub] + raw + Zeros(4 - |raw|))
  }

  function Announced(nodeId: byte, index: u16, sub: byte, size: u32): Frame {
    Frame(0x580 + nodeId, [0x41] + Le16(index) + [sub] + Le32(size))
  }

  // --------------------------------------------------------------------- node

  function StartUpload(n: NodeState, index: u16, sub: byte): (NodeState, Frame)
    requires Storable(n)
  {
    if (index, sub) !in n.objects then
      (n, Abort(n.nodeId, index, sub, if sub == 0 then ABORT_UNKNOWN_OBJECT else ABORT_NO_SUB_INDEX))
    else
      var raw := n.objects[(index, sub)];
      if |raw| <= 4 then (n, Expedited(n.nodeId, index, sub, raw))
      else (n.(pending := Some(raw), offset := 0, toggle := 0), Announced(n.nodeId, index, sub, |raw|))
  }

  function Segment(toggle: byte, chunk: seq<byte>, last: bool): (data: seq<byte>)
    requires toggle <= 1 && |chunk| <= 7
    ensures |data| == 8
  {
    [toggle * 16 + (7 - |chunk|) * 2 + (if last then 1 else 0)] + chunk + Zeros(7 - |chunk|)
  }

  function NextSegment(n: NodeState, command: byte): (NodeState, Frame)
    requires n.pending.Some? ==> n.offset <= |n.pending.value|
  {
    var toggle := command / 16 % 2;
    if n.pending.None? || toggle != n.toggle then (n, Frame(0x580 + n.nodeId, [0x80, 0, 0, 0] + Le32(ABORT_TOGGLE)))
    else
      var raw := n.pending.value;
      var end := Min(n.offset + 7, |raw|);
      var last := end == |raw|;
      (n.(pending := if last then None else n.pending, offset := end, toggle := 1 - toggle),
       Frame(0x580 + n.nodeId, Segment(toggle, raw[n.offset..end], last)))
  }

  /** Values the node can announce, and an offset inside the value it is sending. */
  predicate Storable(n: NodeState) {
    && n.toggle <= 1
    && (n.pending.Some? ==> n.offset <= |n.pending.value|)
    && forall k :: k in n.objects ==> |n.objects[k]| < TWO_32
  }

  /** The node's answer to an upload request. A frame for someone else gets none. */
  function Receive(n: NodeState, f: Frame): (NodeState, Option<Frame>)
    requires Storable(n)
  {
    if f.cobId != 0x600 + n.nodeId as nat || |f.data| != 8 then (n, None)
    else
      var index, sub := IndexOf(f.data), f.data[3];
      if f.data[0] == 0x40 then
        var (n', r) := StartUpload(n, index, sub);
        (n', Some(r))
      else if f.data[0] == 0x60 || f.data[0] == 0x70 then
        var (n', r) := NextSegment(n, f.data[0]);
        (n', Some(r))
      else
        (n, Some(Abort(n.nodeId, index, sub, ABORT_TYPE_MISMATCH)))
  }

  function RequestFrame(nodeId: byte, command: byte, index: u16, sub: byte): Frame {
    Frame(0x600 + nodeId, [command] + Le16(index) + [sub] + Zeros(4))
  }

  // ------------------------------------------------------------------ decoding

  /** What the client takes out of an expedited response and of a segment. */
  function TakeExpedited(data: seq<byte>): seq<byte>
    requires |data| == 8
  {
    data[4..8 - data[0] as nat / 4 % 4]
  }

  predicate IsLast(data: seq<byte>)
    requires |data| == 8
  {
    data[0] % 2 == 1
  }

  function TakeSegment(data: seq<byte>): seq<byte>
    requires |data| == 8
  {
    data[1..if IsLast(data) then 8 - data[0] as nat / 2 % 8 else 8]
  }

  lemma Le32RoundTrips(v: u32)
    ensures FromLe32(Le32(v)) == v
  {
    UpperParts(v);
  }

  /** A short value comes back exactly when it has at least one byte. */
  lemma ExpeditedExactly(nodeId: byte, index: u16, sub: byte, raw: seq<byte>)
    requires |raw| <= 4
    ensures var data := Expedited(nodeId, index, sub, raw).data;
            && |data| == 8 && data[0] != 0x80 && data[0] / 2 % 2 == 1
            && (TakeExpedited(data) == raw <==> raw != [])
            && (raw == [] ==> TakeExpedited(data) == [0, 0, 0, 0])
  {
    var data := Expedited(nodeId, index, sub, raw).data;
    assert data[4..] == raw + Zeros(4 - |raw|);
    if raw != [] {
      assert data[4..4 + |raw|] == raw;
    } else {
      assert data[4..8] == [0, 0, 0, 0];
    }
  }

  /** A segment carries its bytes and says whether it is the last. */
  lemma SegmentRoundTrips(toggle: byte, chunk: seq<byte>, last: bool)
    requires toggle <= 1 && |chunk| <= 7 && (!last ==> |chunk| == 7)
    ensures var data := Segment(toggle, chunk, last);
            IsLast(data) == last && TakeSegment(data) == chunk
  {
    var data := Segment(toggle, chunk, last);
    assert data[1..1 + |chunk|] == chunk;
    var spare := 7 - |chunk|;
    assert (toggle * 16 + spare * 2 + (if last then 1 else 0)) / 2 % 8 == spare;
  }

  // ----------------------------------------------------------------- exchange

  /** The node is k segments into sending raw. */
  predicate Sending(n: NodeState, raw: seq<byte>, k: nat) {
    n.pending == Some(raw) && n.offset == 7 * k < |raw| && n.toggle == k % 2
  }

  function SegmentCommand(k: nat): byte {
    0x60 + 16 * (k % 2)
  }

  lemma RequestIsAddressed(n: NodeState, command: byte, index: u16, sub: byte)
    requires Storable(n)
    ensures var f := RequestFrame(n.nodeId, command, index, sub);
            && f.cobId == 0x600 + n.nodeId && |f.data| == 8 && f.data[0] == command
            && IndexOf(f.data) == index && f.data[3] == sub
  {
  }

  lemma CommandCarriesToggle(k: nat)
    ensures SegmentCommand(k) / 16 % 2 == k % 2 && (k + 1) % 2 == 1 - k % 2
  {
  }

  /** One request for a segment: the next seven bytes or the rest, and the toggle turns. */
  lemma SegmentExchange(n: NodeState, raw: seq<byte>, k: nat)
    requires Storable(n) && Sending(n, raw, k)
    ensures var (n', r) := Receive(n, RequestFrame(n.nodeId, SegmentCommand(k), 0, 0));
            var end := Min(7 * k + 7, |raw|);
            && r.Some? && |r.value.data| == 8
            && TakeSegment(r.value.data) == raw[7 * k..end]
            && (IsLast(r.value.data) <==> end == |raw|)
            && (if end == |raw| then n'.pending == None else Sending(n', raw, k + 1))
            && n'.objects == n.objects && n'.nodeId == n.nodeId && Storable(n')
  {
    RequestIsAddressed(n, SegmentCommand(k), 0, 0);
    CommandCarriesToggle(k);
    var end := Min(7 * k + 7, |raw|);
    SegmentRoundTrips(k % 2, raw[7 * k..end], end == |raw|);
  }

  lemma LongUploadStarts(n: NodeState, index: u16, sub: byte)
    requires Storable(n) && (index, sub) in n.objects && |n.objects[(index, sub)]| > 4
    ensures var raw := n.objects[(index, sub)];
            var (n', r) := Receive(n, RequestFrame(n.nodeId, 0x40, index, sub));
            && r.Some? && |r.value.data| == 8 && r.value.data[0] == 0x41 && FromLe32(r.value.data[4..]) == |raw|
            && Sending(n', raw, 0) && n'.objects == n.objects && n'.nodeId == n.nodeId && Storable(n')
  {
    RequestIsAddressed(n, 0x40, index, sub);
    var size := |n.objects[(index, sub)]|;
    Le32RoundTrips(size);
    assert Announced(n.nodeId, index, sub, size).data[4..] == Le32(size);
  }

  lemma ShortUploadAnswers(n: NodeState, index: u16, sub: byte)
    requires Storable(n) && ((index, sub) in n.objects ==> |n.objects[(index, sub)]| <= 4)
    ensures var (n', r) := Receive(n, RequestFrame(n.nodeId, 0x40, index, sub));
            && r.Some? && n' == n
            && ((index, sub) in n.objects ==>
                  r.value == Expedited(n.nodeId, index, sub, n.objects[(index, sub)]))
            && ((index, sub) !in n.objects ==> |r.value.data| == 8 && r.value.data[0] == 0x80)
  {
    RequestIsAddressed(n, 0x40, index, sub);
  }

  // --------------------------------------------------------------------- client

  class MockNode {
    const nodeId: byte
    var objects: map<Key, seq<byte>>
    var pending: Option<seq<byte>>
    var offset: nat
    var toggle: byte
    /** The command bytes received, in order. */
    ghost var heard: seq<byte>

    ghost function State(): NodeState
      reads this
    {
      NodeState(nodeId, objects, pending, offset, toggle)
    }

    constructor (nodeId: byte, objects: map<Key, seq<byte>>)
      requires forall k :: k in objects ==> |objects[k]| < TWO_32
      ensures Storable(State()) && State() == NodeState(nodeId, objects, None, 0, 0) && heard == []
    {
      this.nodeId, this.objects := nodeId, objects;
      pending, offset, toggle, heard := None, 0, 0, [];
    }

    method Answer(f: Frame) returns (r: Option<Frame>)
      requires Storable(State())
      modifies this
      ensures (State(), r) == Receive(old(State()), f) && Storable(State())
      ensures heard == if r.Some? then old(heard) + [f.data[0]] else old(heard)
    {
      if f.cobId != 0x600 + nodeId as nat || |f.data| != 8 {
        return None;
      }
      heard := heard + [f.data[0]];
      var index, sub := IndexOf(f.data), f.data[3];
      if f.data[0] == 0x40 {
        var frame := BeginUpload(index, sub);
        r := Some(frame);
      } else if f.data[0] == 0x60 || f.data[0] == 0x70 {
        var frame := SendSegment(f.data[0]);
        r := Some(frame);
      } else {
        r := Some(Abort(nodeId, index, sub, ABORT_TYPE_MISMATCH));
      }
    }

    method BeginUpload(index: u16, sub: byte) returns (r: Frame)
      requires Storable(State())
      modifies this`pending, this`offset, this`toggle
      ensures (State(), r) == StartUpload(old(State()), index, sub)
    {
      if (index, sub) !in objects {
        return Abort(nodeId, index, sub, if sub == 0 then ABORT_UNKNOWN_OBJECT else ABORT_NO_SUB_INDEX);
      }
      var raw := objects[(index, sub)];
      if |raw| <= 4 {
        return Expedited(nodeId, index, sub, raw);
      }
      pending, offset, toggle := Some(raw), 0, 0;
      r := Announced(nodeId, index, sub, |raw|);
    }

    method SendSegment(command: byte) returns (r: Frame)
      requires Storable(State())
      modifies this`pending, this`offset, this`toggle
      ensures (State(), r) == NextSegment(old(State()), command)
    {
      var asked := command / 16 % 2;
      if pending.None? || asked != toggle {
        return Frame(0x580 + nodeId, [0x80, 0, 0, 0] + Le32(ABORT_TOGGLE));
      }
      var raw := pending.value;
      var chunk := raw[offset..Min(offset + 7, |raw|)];
      offset := offset + |chunk|;
      var last := offset == |raw|;
      r := Frame(0x580 + nodeId, Segment(asked, chunk, last));
      toggle := 1 - toggle;
      if last {
        pending := None;
      }
    }
  }

  datatype Upload = Raised | Aborted | Value(bytes: seq<byte>)

  /** The segment requests of one upload: the toggle alternates, starting from zero. */
  function Alternating(k: nat): seq<byte> {
    if k == 0 then [] else Alternating(k - 1) + [SegmentCommand(k - 1)]
  }

  lemma {:induction false} TogglesAlternate(k: nat, i: nat)
    requires i < k
    ensures |Alternating(k)| == k && Alternating(k)[i] == if i % 2 == 0 then 0x60 else 0x70
  {
    if i < k - 1 {
      TogglesAlternate(k - 1, i);
    } else if k > 1 {
      TogglesAlternate(k - 1, 0);
    }
  }

  /** One turn of the loop: ask for a segment and take the bytes out of the response. */
  method FetchSegment(node: MockNode, toggle: byte, ghost raw: seq<byte>, ghost k: nat)
    returns (chunk: seq<byte>, last: bool)
    requires Storable(node.State()) && Sending(node.State(), raw, k) && toggle == k % 2
    modifies node
    ensures chunk == raw[7 * k..Min(7 * k + 7, |raw|)] && last == (7 * k + 7 >= |raw|)
    ensures Storable(node.State()) && node.objects == old(node.objects)
    ensures if last then node.pending == None else Sending(node.State(), raw, k + 1)
    ensures node.heard == old(node.heard) + [SegmentCommand(k)]
  {
    SegmentExchange(node.State(), raw, k);
    RequestIsAddressed(node.State(), SegmentCommand(k), 0, 0);
    var segment := node.Answer(RequestFrame(node.nodeId, 0x60 + 16 * toggle, 0, 0));
    chunk, last := TakeSegment(segment.value.data), IsLast(segment.value.data);
  }

  /** The client's loop. It ends, and collects exactly what the node is sending. */
  method CollectSegments(node: MockNode, ghost raw: seq<byte>) returns (result: seq<byte>)
    requires Storable(node.State()) && Sending(node.State(), raw, 0)
    modifies node
    ensures result == raw && node.pending == None && node.objects == old(node.objects) && Storable(node.State())
    ensures node.heard == old(node.heard) + Alternating((|raw| + 6) / 7)
  {
    result := [];
    var toggle: byte := 0;
    ghost var k := 0;
    var last := false;
    while !last
      invariant Storable(node.State()) && node.objects == old(node.objects)
      invariant !last ==> Sending(node.State(), raw, k) && result == raw[..7 * k] && toggle == k % 2
      invariant last ==> result == raw && node.pending == None && k == (|raw| + 6) / 7
      invariant node.heard == old(node.heard) + Alternating(k)
      decreases !last, |raw| - |result|
    {
      var chunk;
      chunk, last := FetchSegment(node, toggle, raw, k);
      assert raw[..7 * k] + chunk == raw[..Min(7 * k + 7, |raw|)];
      result := result + chunk;
      toggle := 1 - toggle;
      k := k + 1;
    }
  }

  /**
   * The client. Against a node with the given id it ends, and returns the value of the object exactly,
   * for every value of at least one byte; an empty value reads back as four zero bytes, and an object
   * that is not there as an abort. The size check at the end of a segmented upload never raises.
   */
  method ClientUpload(node: MockNode, nodeId: byte, index: u16, sub: byte) returns (r: Upload)
    requires Storable(node.State())
    modifies node
    ensures node.objects == old(node.objects) && Storable(node.State())
    ensures nodeId != node.nodeId ==> r == Raised
    ensures nodeId == node.nodeId ==>
              r == if (index, sub) !in node.objects then Aborted
                   else if node.objects[(index, sub)] == [] then Value([0, 0, 0, 0])
                   else Value(node.objects[(index, sub)])
    ensures nodeId == node.nodeId && (index, sub) in node.objects && |node.objects[(index, sub)]| > 4 ==>
              node.heard == old(node.heard) + [0x40] + Alternating((|node.objects[(index, sub)]| + 6) / 7)
  {
    ghost var n := node.State();
    var response := node.Answer(RequestFrame(nodeId, 0x40, index, sub));
    if response.None? {
      if nodeId == node.nodeId {
        ShortOrLong(n, index, sub);
      }
      return Raised;
    }
    ShortOrLong(n, index, sub);
    var data := response.value.data;
    if data[0] == 0x80 {
      return Aborted;
    }
    if data[0] / 2 % 2 == 1 {
      return Value(TakeExpedited(data));
    }
    var expected := FromLe32(data[4..8]);
    var result := CollectSegments(node, n.objects[(index, sub)]);
    if |result| != expected {
      return Raised;
    }
    r := Value(result);
  }

  lemma ShortOrLong(n: NodeState, index: u16, sub: byte)
    requires Storable(n)
    ensures var (n', r) := Receive(n, RequestFrame(n.nodeId, 0x40, index, sub));
            && r.Some? && |r.value.data| == 8
            && (if (index, sub) !in n.objects then r.value.data[0] == 0x80
                else
                  var raw := n.objects[(index, sub)];
                  if |raw| <= 4 then
                    && r.value.data[0] != 0x80 && r.value.data[0] / 2 % 2 == 1
                    && TakeExpedited(r.value.data) == if raw == [] then [0, 0, 0, 0] else raw
                  else
                    && r.value.data[0] == 0x41 && FromLe32(r.value.data[4..]) == |raw|
                    && Sending(n', raw, 0) && Storable(n'))
  {
    if (index, sub) in n.objects && |n.objects[(index, sub)]| > 4 {
      LongUploadStarts(n, index, sub);
    } else {
      ShortUploadAnswers(n, index, sub);
      if (index, sub) in n.objects {
        ExpeditedExactly(n.nodeId, index, sub, n.objects[(index, sub)]);
      }
    }
  }
}
