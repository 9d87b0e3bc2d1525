/**
 * The mock node under any requests of any clients, downloads apart: which upload is open, and how far it has got,
 * is read off the requests alone.
 */
module SdoHistory {
  import opened Words
  import opened SdoUpload

  /** A node with these objects after all of `frames`. */
  function After(nodeId: byte, objects: map<Key, seq<byte>>, frames: seq<Frame>): (n: NodeState)
    requires forall k :: k in objects ==> |objects[k]| < TWO_32
    ensures Storable(n) && n.nodeId == nodeId && n.objects == objects
  {
    if frames == [] then NodeState(nodeId, objects, None, 0, 0)
    else
      var n := After(nodeId, objects, frames[..|frames| - 1]);
      ReceiveKeeps(n, frames[|frames| - 1]);
      Receive(n, frames[|frames| - 1]).0
  }

  lemma ReceiveKeeps(n: NodeState, f: Frame)
    requires Storable(n)
    ensures var n' := Receive(n, f).0; Storable(n') && n'.nodeId == n.nodeId && n'.objects == n.objects
  {
  }

  predicate Addressed(nodeId: byte, f: Frame) {
    f.cobId == 0x600 + nodeId as nat && |f.data| == 8
  }

  function KeyOf(f: Frame): Key
    requires |f.data| == 8
  {
    (IndexOf(f.data), f.data[3])
  }

  /** A request that opens a segmented upload. */
  predicate Opens(nodeId: byte, objects: map<Key, seq<byte>>, f: Frame) {
    Addressed(nodeId, f) && f.data[0] == 0x40 && KeyOf(f) in objects && |objects[KeyOf(f)]| > 4
  }

  /** An upload under way: the object, and how many segments have been handed out. */
  datatype Progress = Progress(key: Key, segments: nat)

  /** The request for the next segment: the toggle bit is the parity of the segments handed out. */
  predicate AsksNext(nodeId: byte, f: Frame, segments: nat) {
    Addressed(nodeId, f) && f.data[0] == if segments % 2 == 0 then 0x60 else 0x70
  }

  function Under(nodeId: byte, objects: map<Key, seq<byte>>, frames: seq<Frame>): Option<Progress> {
    if frames == [] then None
    else Turn(nodeId, objects, Under(nodeId, objects, frames[..|frames| - 1]), frames[|frames| - 1])
  }

  /** What one request makes of the upload under way: a new one, one segment more, its end, or nothing. */
  function Turn(nodeId: byte, objects: map<Key, seq<byte>>, u: Option<Progress>, f: Frame): Option<Progress> {
    if Opens(nodeId, objects, f) then Some(Progress(KeyOf(f), 0))
    else if u.Some? && u.value.key in objects && AsksNext(nodeId, f, u.value.segments) then
      if 7 * (u.value.segments + 1) < |objects[u.value.key]| then Some(Progress(u.value.key, u.value.segments + 1))
      else None
    else u
  }

  ghost predicate Reflects(n: NodeState, u: Option<Progress>) {
    match u
    case None => n.pending == None
    case Some(p) => p.key in n.objects && Sending(n, n.objects[p.key], p.segments)
  }

  lemma OpenReflects(n: NodeState, u: Option<Progress>, f: Frame)
    requires Storable(n) && Reflects(n, u) && Addressed(n.nodeId, f) && f.data[0] == 0x40
    ensures Reflects(Receive(n, f).0, Turn(n.nodeId, n.objects, u, f))
  {
  }

  lemma SegmentReflects(n: NodeState, u: Option<Progress>, f: Frame)
    requires Storable(n) && Reflects(n, u) && Addressed(n.nodeId, f) && f.data[0] in {0x60, 0x70}
    ensures Reflects(Receive(n, f).0, Turn(n.nodeId, n.objects, u, f))
  {
    if u.Some? {
      CommandCarriesToggle(u.value.segments);
    }
  }

  lemma RequestReflects(n: NodeState, u: Option<Progress>, f: Frame)
    requires Storable(n) && Reflects(n, u)
    ensures Reflects(Receive(n, f).0, Turn(n.nodeId, n.objects, u, f))
  {
    if Addressed(n.nodeId, f) {
      if f.data[0] == 0x40 {
        OpenReflects(n, u, f);
      } else if f.data[0] in {0x60, 0x70} {
        SegmentReflects(n, u, f);
      }
    }
  }

  /** After any requests the node is sending exactly the upload that is under way by the requests, as far on. */
  lemma {:induction false} NodeReflectsRequests(nodeId: byte, objects: map<Key, seq<byte>>, frames: seq<Frame>)
    requires forall k :: k in objects ==> |objects[k]| < TWO_32
    ensures Reflects(After(nodeId, objects, frames), Under(nodeId, objects, frames))
  {
    if frames != [] {
      var init := frames[..|frames| - 1];
      NodeReflectsRequests(nodeId, objects, init);
      RequestReflects(After(nodeId, objects, init), Under(nodeId, objects, init), frames[|frames| - 1]);
    }
  }

  lemma SegmentIsNext(n: NodeState, raw: seq<byte>, k: nat, f: Frame)
    requires Storable(n) && Sending(n, raw, k) && AsksNext(n.nodeId, f, k)
    ensures Carries(n.nodeId, Receive(n, f).1, raw, k)
  {
    CommandCarriesToggle(k);
    var end := Min(7 * k + 7, |raw|);
    SegmentRoundTrips(k % 2, raw[7 * k..end], end == |raw|);
  }

  /** The response carries the k-th seven bytes of `raw`, or what is left, flagged as last exactly then. */
  predicate Carries(nodeId: byte, r: Option<Frame>, raw: seq<byte>, k: nat)
    requires 7 * k < |raw|
  {
    && r.Some? && r.value.cobId == 0x580 + nodeId as nat && |r.value.data| == 8
    && TakeSegment(r.value.data) == raw[7 * k..Min(7 * k + 7, |raw|)]
    && (IsLast(r.value.data) <==> 7 * k + 7 >= |raw|)
    && r.value.data[0] / 16 == k % 2
  }

  lemma SegmentIsRefused(n: NodeState, u: Option<Progress>, f: Frame)
    requires Storable(n) && Reflects(n, u) && Addressed(n.nodeId, f) && f.data[0] in {0x60, 0x70}
    requires u.None? || !AsksNext(n.nodeId, f, u.value.segments)
    ensures Receive(n, f) == (n, Some(Frame(0x580 + n.nodeId, [0x80, 0, 0, 0, 0, 0, 3, 5])))
  {
    assert [0x80, 0, 0, 0] + Le32(ABORT_TOGGLE) == [0x80, 0, 0, 0, 0, 0, 3, 5];
    if u.Some? {
      CommandCarriesToggle(u.value.segments);
    }
  }

  /**
   * A request for a segment, after any requests: it gets the next seven bytes of the object, or what is left of
   * it, flagged as last exactly then, if an upload is under way and its toggle is the one due; otherwise the
   * abort for a wrong toggle, and nothing changes.
   */
  lemma SegmentExactly(nodeId: byte, objects: map<Key, seq<byte>>, frames: seq<Frame>, f: Frame)
    requires forall k :: k in objects ==> |objects[k]| < TWO_32
    requires Addressed(nodeId, f) && f.data[0] in {0x60, 0x70}
    ensures var n, u := After(nodeId, objects, frames), Under(nodeId, objects, frames);
            if u.Some? && AsksNext(nodeId, f, u.value.segments) then
              && u.value.key in objects && 7 * u.value.segments < |objects[u.value.key]|
              && Carries(nodeId, Receive(n, f).1, objects[u.value.key], u.value.segments)
            else
              Receive(n, f) == (n, Some(Frame(0x580 + nodeId, [0x80, 0, 0, 0, 0, 0, 3, 5])))
  {
    hide Receive;
    hide Carries;
    NodeReflectsRequests(nodeId, objects, frames);
    var n, u := After(nodeId, objects, frames), Under(nodeId, objects, frames);
    if u.Some? && AsksNext(nodeId, f, u.value.segments) {
      SegmentIsNext(n, objects[u.value.key], u.value.segments, f);
    } else {
      SegmentIsRefused(n, u, f);
    }
  }

  /**
   * What a first request for an object gets, whatever came before: an abort naming what is missing, the whole of
   * a short value, or the length of a long one.
   */
  lemma FirstAnswerExactly(n: NodeState, f: Frame)
    requires Storable(n) && Addressed(n.nodeId, f) && f.data[0] == 0x40
    ensures var r := Receive(n, f).1;
            && r.Some? && r.value.cobId == 0x580 + n.nodeId as nat && |r.value.data| == 8
            && r.value.data[1..4] == f.data[1..4]
            && var data := r.value.data;
               if KeyOf(f) !in n.objects then
                 data[0] == 0x80 && data[4..] == if f.data[3] == 0 then [0, 0, 2, 6] else [0x11, 0, 9, 6]
               else
                 var raw := n.objects[KeyOf(f)];
                 if |raw| > 4 then data[0] == 0x41 && FromLe32(data[4..]) == |raw|
                 else data[0] == 0x53 - 4 * |raw| && data[4..4 + |raw|] == raw
  {
    var index, sub := IndexOf(f.data), f.data[3];
    assert f.data[1..4] == Le16(index) + [sub];
    if KeyOf(f) !in n.objects {
      AbortTells(n.nodeId, index, sub, if sub == 0 then ABORT_UNKNOWN_OBJECT else ABORT_NO_SUB_INDEX);
    } else if |n.objects[KeyOf(f)]| > 4 {
      LengthIsTold(n.nodeId, index, sub, |n.objects[KeyOf(f)]|);
    } else {
      ValueIsTold(n.nodeId, index, sub, n.objects[KeyOf(f)]);
    }
  }

  lemma AbortTells(nodeId: byte, index: u16, sub: byte, code: u32)
    ensures var data := Abort(nodeId, index, sub, code).data;
            |data| == 8 && data[0] == 0x80 && data[1..4] == Le16(index) + [sub] && data[4..] == Le32(code)
    ensures Le32(ABORT_UNKNOWN_OBJECT) == [0, 0, 2, 6] && Le32(ABORT_NO_SUB_INDEX) == [0x11, 0, 9, 6]
    ensures Le32(ABORT_TYPE_MISMATCH) == [0x10, 0, 7, 6]
  {
  }

  lemma LengthIsTold(nodeId: byte, index: u16, sub: byte, size: u32)
    ensures var data := Announced(nodeId, index, sub, size).data;
            |data| == 8 && data[0] == 0x41 && data[1..4] == Le16(index) + [sub] && FromLe32(data[4..]) == size
  {
    Le32RoundTrips(size);
    assert Announced(nodeId, index, sub, size).data[4..] == Le32(size);
  }

  lemma ValueIsTold(nodeId: byte, index: u16, sub: byte, raw: seq<byte>)
    requires |raw| <= 4
    ensures var data := Expedited(nodeId, index, sub, raw).data;
            && |data| == 8 && data[0] == 0x53 - 4 * |raw|
            && data[1..4] == Le16(index) + [sub] && data[4..4 + |raw|] == raw
  {
    assert Expedited(nodeId, index, sub, raw).data[4..] == raw + Zeros(4 - |raw|);
  }

  /**
   * Any other request of the right length is refused, downloads apart, and one for another node or of another
   * length ignored.
   */
  lemma OtherRequestsExactly(n: NodeState, f: Frame)
    requires Storable(n) && (Addressed(n.nodeId, f) ==> f.data[0] !in {0x40, 0x60, 0x70} && f.data[0] / 32 != 1)
    ensures var (n', r) := Receive(n, f);
            && n' == n
            && (r.Some? <==> Addressed(n.nodeId, f))
            && (r.Some? ==> r.value == Frame(0x580 + n.nodeId, [0x80] + f.data[1..4] + [0x10, 0, 7, 6]))
  {
    if Addressed(n.nodeId, f) {
      assert f.data[1..4] == Le16(IndexOf(f.data)) + [f.data[3]];
      AbortTells(n.nodeId, IndexOf(f.data), f.data[3], ABORT_TYPE_MISMATCH);
    }
  }
}
