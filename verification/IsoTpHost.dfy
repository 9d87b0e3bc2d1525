/**
 * The host-side ISO-TP model: the encoder that splits a payload in one loop and the receiver that puts
 * it together again. It is the simple reference for the embedded sender: the frames `IsoTpLink` puts on
 * the wire are the frames this encoder lists.
 */
module IsoTpHost {
  import opened Words
  import opened IsoTp
  import opened IsoTpLink
  import opened IsoTpTransfer
  import T = IsoTpTiming

  /** The host keeps only the bytes that count, at most eight, under an 11-bit identifier. */
  datatype HostFrame = HostFrame(canId: u32, data: seq<byte>)

  predicate FrameOk(f: HostFrame) {
    f.canId <= 0x7FF && |f.data| <= 8
  }

  /** What the host sees of a frame sent by the embedded code. */
  function Seen(f: CanFrame): HostFrame
    requires f.dlc <= 8
  {
    HostFrame(f.canId, Content(f))
  }

  function HostFrames(id: u32, payload: seq<byte>): (fs: seq<HostFrame>)
    requires 1 <= |payload| <= MAX_PAYLOAD
    ensures |fs| == FrameCount(|payload|)
  {
    seq(FrameCount(|payload|), k requires 0 <= k < FrameCount(|payload|) => Seen(FrameAt(id, payload, k)))
  }

  /** The encoder's k-th frame, put behind the k frames before it. */
  lemma NextHostFrame(id: u32, payload: seq<byte>, k: nat)
    requires 7 < |payload| <= MAX_PAYLOAD && k >= 1 && Pos(|payload|, k - 1) < |payload|
    ensures k < FrameCount(|payload|)
    ensures var offset := Pos(|payload|, k - 1);
            var end := Min(offset + 7, |payload|);
            && end == Pos(|payload|, k)
            && HostFrames(id, payload)[..k] + [HostFrame(id, [0x20 + k % 16] + payload[offset..end])]
               == HostFrames(id, payload)[..k + 1]
  {
    PosAdvancesUntilEnd(|payload|, k - 1);
  }

  lemma NextSequence(k: nat)
    ensures (k % 16 + 1) % 16 == (k + 1) % 16
  {
  }

  /**
   * The encoder. It raises (None) on an empty or oversized payload and on an identifier beyond 11 bits;
   * otherwise its list is, frame by frame and byte by byte, what the embedded sender transmits.
   */
  method IsotpEncode(canId: u32, payload: seq<byte>) returns (r: Option<seq<HostFrame>>)
    ensures r.Some? <==> 1 <= |payload| <= MAX_PAYLOAD && canId <= 0x7FF
    ensures r.Some? ==> r.value == HostFrames(canId, payload)
    ensures r.Some? ==> forall f <- r.value :: FrameOk(f)
  {
    if payload == [] || canId > 0x7FF {
      return None;
    }
    if |payload| <= 7 {
      return Some([HostFrame(canId, [|payload|] + payload)]);
    }
    if |payload| > 4095 {
      return None;
    }
    var frames := [HostFrame(canId, [0x10 + |payload| / 256, |payload| % 256] + payload[..6])];
    var sequence: byte := 1;
    var offset := 6;
    while offset < |payload|
      invariant 1 <= |frames| <= FrameCount(|payload|)
      invariant offset == Pos(|payload|, |frames| - 1)
      invariant sequence == |frames| % 16
      invariant frames == HostFrames(canId, payload)[..|frames|]
      decreases |payload| - offset
    {
      var chunk := payload[offset..Min(offset + 7, |payload|)];
      NextHostFrame(canId, payload, |frames|);
      NextSequence(|frames|);
      frames := frames + [HostFrame(canId, [0x20 + sequence] + chunk)];
      sequence := (sequence + 1) % 16;
      offset := offset + |chunk|;
    }
    CfCountIsCeiling(|payload|);
    r := Some(frames);
  }

  lemma PosAdvancesUntilEnd(n: nat, k: nat)
    requires n > 7 && Pos(n, k) < n
    ensures k < CfCount(n) && Pos(n, k + 1) == Min(n, Pos(n, k) + 7)
  {
  }

  // ---------------------------------------------------------------- receiver

  datatype HostState = HostState(expected: Option<nat>, buffer: seq<byte>, nextSequence: byte)

  datatype Outcome = Raised | Value(flowControl: seq<HostFrame>, payload: Option<seq<byte>>)

  const HOST_RESET := HostState(None, [], 1)

  function CompleteIfReady(s: HostState): (HostState, Option<seq<byte>>) {
    if s.expected.Some? && |s.buffer| >= s.expected.value then (HOST_RESET, Some(s.buffer[..s.expected.value]))
    else (s, None)
  }

  function HostFeed(maxPayload: nat, s: HostState, f: HostFrame): (HostState, Outcome) {
    if f.data == [] then (s, Raised)
    else
      var pci := f.data[0] / 16;
      if pci == 0 then
        var length := f.data[0] % 16;
        if length > 7 || length > |f.data| - 1 then (s, Raised) else (s, Value([], Some(f.data[1..1 + length])))
      else if pci == 1 then
        if |f.data| < 2 then (s, Raised)
        else
          var length := f.data[0] as int % 16 * 256 + f.data[1] as int;
          if length <= 7 || length > maxPayload then (s, Raised)
          else
            var (s', done) := CompleteIfReady(HostState(Some(length), f.data[2..], 1));
            (s', Value([HostFrame(f.canId, [0x30, 0, 0])], done))
      else if pci == 2 then
        if s.expected.None? then (s, Raised)
        else if f.data[0] % 16 != s.nextSequence then (HOST_RESET, Raised)
        else
          var (s', done) := CompleteIfReady(HostState(s.expected, s.buffer + f.data[1..], (s.nextSequence + 1) % 16));
          (s', Value([], done))
      else if pci == 3 then
        (s, if f.data[0] % 16 <= 2 then Value([], None) else Raised)
      else
        (s, Raised)
  }

  class HostReceiver {
    const maxPayload: nat
    var expected: Option<nat>
    var buffer: seq<byte>
    var nextSequence: byte

    constructor (maxPayload: nat := 4095)
      ensures this.maxPayload == maxPayload && State() == HOST_RESET
    {
      this.maxPayload := maxPayload;
      expected, buffer, nextSequence := None, [], 1;
    }

    function State(): HostState
      reads this
    {
      HostState(expected, buffer, nextSequence)
    }

    method Reset()
      modifies this
      ensures State() == HOST_RESET
    {
      expected, buffer, nextSequence := None, [], 1;
    }

    method TakeIfReady() returns (payload: Option<seq<byte>>)
      modifies this
      ensures (State(), payload) == CompleteIfReady(old(State()))
    {
      payload := None;
      if expected.Some? && |buffer| >= expected.value {
        payload := Some(buffer[..expected.value]);
        Reset();
      }
    }

    method Feed(f: HostFrame) returns (out: Outcome)
      modifies this
      ensures (State(), out) == HostFeed(maxPayload, old(State()), f)
    {
      if f.data == [] {
        return Raised;
      }
      var pci := f.data[0] / 16;
      if pci == 0 {
        var length := f.data[0] % 16;
        if length > 7 || length > |f.data| - 1 {
          return Raised;
        }
        return Value([], Some(f.data[1..1 + length]));
      }
      if pci == 1 {
        if |f.data| < 2 {
          return Raised;
        }
        var length := f.data[0] as int % 16 * 256 + f.data[1] as int;
        if length <= 7 || length > maxPayload {
          return Raised;
        }
        expected, buffer, nextSequence := Some(length), f.data[2..], 1;
        var done := TakeIfReady();
        return Value([HostFrame(f.canId, [0x30, 0, 0])], done);
      }
      if pci == 2 {
        if expected.None? {
          return Raised;
        }
        if f.data[0] % 16 != nextSequence {
          Reset();
          return Raised;
        }
        buffer := buffer + f.data[1..];
        nextSequence := (nextSequence + 1) % 16;
        var done := TakeIfReady();
        return Value([], done);
      }
      if pci == 3 && f.data[0] % 16 <= 2 {
        return Value([], None);
      }
      out := Raised;
    }
  }

  /** Feed a list of frames; the payloads handed over, one entry a frame, or None as soon as one raises. */
  function FeedAll(maxPayload: nat, s: HostState, fs: seq<HostFrame>): Option<seq<Option<seq<byte>>>>
    decreases |fs|
  {
    if fs == [] then Some([])
    else
      var (s', out) := HostFeed(maxPayload, s, fs[0]);
      if out.Raised? then None
      else
        var rest := FeedAll(maxPayload, s', fs[1..]);
        if rest.None? then None else Some([out.payload] + rest.value)
  }

  function NothingUntilLast(n: nat, payload: seq<byte>): seq<Option<seq<byte>>>
    requires n > 0
  {
    seq(n - 1, _ => None) + [Some(payload)]
  }

  /** The receiver after the first frame and `k` consecutive frames. */
  function Midway(payload: seq<byte>, k: nat): HostState {
    HostState(Some(|payload|), payload[..Pos(|payload|, k)], (k + 1) % 16)
  }

  lemma HostTakesFirst(maxPayload: nat, s: HostState, id: u32, payload: seq<byte>)
    requires 1 <= |payload| <= Min(MAX_PAYLOAD, maxPayload)
    ensures var (s', out) := HostFeed(maxPayload, s, Seen(FrameAt(id, payload, 0)));
            && out.Value?
            && if |payload| <= 7 then out.payload == Some(payload) else s' == Midway(payload, 0) && out.payload == None
  {
    var f := Seen(FrameAt(id, payload, 0));
    if |payload| <= 7 {
      assert f.data[1..1 + |payload|] == payload;
    } else {
      assert f.data[2..] == payload[..6];
    }
  }

  lemma HostAppends(maxPayload: nat, s: HostState, id: u32, chunk: seq<byte>)
    requires s.expected.Some? && s.nextSequence < 16
    ensures var (s', done) := CompleteIfReady(HostState(s.expected, s.buffer + chunk, (s.nextSequence + 1) % 16));
            HostFeed(maxPayload, s, HostFrame(id, [0x20 + s.nextSequence] + chunk)) == (s', Value([], done))
  {
    assert ([0x20 + s.nextSequence] + chunk)[1..] == chunk;
  }

  lemma HostTakesConsecutive(maxPayload: nat, id: u32, payload: seq<byte>, k: nat)
    requires 7 < |payload| <= MAX_PAYLOAD && k < CfCount(|payload|)
    ensures HostFeed(maxPayload, Midway(payload, k), Seen(FrameAt(id, payload, k + 1)))
              == if k + 1 < CfCount(|payload|) then (Midway(payload, k + 1), Value([], None))
                 else (HOST_RESET, Value([], Some(payload)))
  {
    var n := |payload|;
    PosAdvances(n, k);
    SequenceFollows(k);
    var chunk := payload[Pos(n, k)..Pos(n, k + 1)];
    assert Seen(FrameAt(id, payload, k + 1)) == HostFrame(id, [0x20 + (k + 1) % 16] + chunk);
    HostAppends(maxPayload, Midway(payload, k), id, chunk);
    assert payload[..Pos(n, k)] + chunk == payload[..Pos(n, k + 1)];
    assert payload[..n] == payload;
  }

  lemma FeedAllCons(maxPayload: nat, s: HostState, f: HostFrame, rest: seq<HostFrame>, s': HostState, out: Outcome,
                    tail: seq<Option<seq<byte>>>)
    requires HostFeed(maxPayload, s, f) == (s', out) && out.Value?
    requires FeedAll(maxPayload, s', rest) == Some(tail)
    ensures FeedAll(maxPayload, s, [f] + rest) == Some([out.payload] + tail)
  {
    assert ([f] + rest)[1..] == rest;
  }

  lemma FeedLast(maxPayload: nat, s: HostState, f: HostFrame, payload: seq<byte>)
    requires HostFeed(maxPayload, s, f).1.Value? && HostFeed(maxPayload, s, f).1.payload == Some(payload)
    ensures FeedAll(maxPayload, s, [f]) == Some(NothingUntilLast(1, payload))
  {
    FeedAllCons(maxPayload, s, f, [], HostFeed(maxPayload, s, f).0, HostFeed(maxPayload, s, f).1, []);
    assert [f] + [] == [f] && [Some(payload)] + [] == NothingUntilLast(1, payload);
  }

  lemma FeedNext(maxPayload: nat, s: HostState, fs: seq<HostFrame>, s': HostState, left: nat, payload: seq<byte>)
    requires fs != [] && left > 0
    requires var (s1, out) := HostFeed(maxPayload, s, fs[0]); s1 == s' && out.Value? && out.payload == None
    requires FeedAll(maxPayload, s', fs[1..]) == Some(NothingUntilLast(left, payload))
    ensures FeedAll(maxPayload, s, fs) == Some(NothingUntilLast(left + 1, payload))
  {
    FeedAllCons(maxPayload, s, fs[0], fs[1..], s', HostFeed(maxPayload, s, fs[0]).1, NothingUntilLast(left, payload));
    assert [fs[0]] + fs[1..] == fs;
    assert [None] + NothingUntilLast(left, payload) == NothingUntilLast(left + 1, payload);
  }

  /** The encoder's frames from the one after the k-th consecutive on. */
  function Rest(id: u32, payload: seq<byte>, k: nat): (fs: seq<HostFrame>)
    requires 7 < |payload| <= MAX_PAYLOAD && k < CfCount(|payload|)
    ensures |fs| == CfCount(|payload|) - k && fs[0] == Seen(FrameAt(id, payload, k + 1))
  {
    HostFrames(id, payload)[k + 1..]
  }

  lemma RestContinues(id: u32, payload: seq<byte>, k: nat)
    requires 7 < |payload| <= MAX_PAYLOAD && k + 1 < CfCount(|payload|)
    ensures Rest(id, payload, k)[1..] == Rest(id, payload, k + 1)
  {
  }

  lemma RestStep(maxPayload: nat, id: u32, payload: seq<byte>, k: nat)
    requires 7 < |payload| <= MAX_PAYLOAD && k + 1 < CfCount(|payload|)
    requires FeedAll(maxPayload, Midway(payload, k + 1), Rest(id, payload, k + 1))
               == Some(NothingUntilLast(CfCount(|payload|) - k - 1, payload))
    ensures FeedAll(maxPayload, Midway(payload, k), Rest(id, payload, k))
              == Some(NothingUntilLast(CfCount(|payload|) - k, payload))
  {
    HostTakesConsecutive(maxPayload, id, payload, k);
    RestContinues(id, payload, k);
    FeedNext(maxPayload, Midway(payload, k), Rest(id, payload, k), Midway(payload, k + 1),
             CfCount(|payload|) - k - 1, payload);
  }

  lemma RestEnds(maxPayload: nat, id: u32, payload: seq<byte>, k: nat)
    requires 7 < |payload| <= MAX_PAYLOAD && k + 1 == CfCount(|payload|)
    ensures FeedAll(maxPayload, Midway(payload, k), Rest(id, payload, k))
              == Some(NothingUntilLast(CfCount(|payload|) - k, payload))
  {
    HostTakesConsecutive(maxPayload, id, payload, k);
    var fs := Rest(id, payload, k);
    assert fs == [fs[0]];
    FeedLast(maxPayload, Midway(payload, k), fs[0], payload);
  }

  lemma {:induction false} RestRoundTrips(maxPayload: nat, id: u32, payload: seq<byte>, k: nat)
    requires 7 < |payload| <= MAX_PAYLOAD && k < CfCount(|payload|)
    ensures FeedAll(maxPayload, Midway(payload, k), Rest(id, payload, k))
              == Some(NothingUntilLast(CfCount(|payload|) - k, payload))
    decreases CfCount(|payload|) - k
  {
    hide HostFeed;
    if k + 1 == CfCount(|payload|) {
      RestEnds(maxPayload, id, payload, k);
    } else {
      RestRoundTrips(maxPayload, id, payload, k + 1);
      RestStep(maxPayload, id, payload, k);
    }
  }

  /**
   * Round trip of the host model: a receiver in any state, fed the encoder's frames, never raises, hands
   * over the payload with the last frame, and nothing before it.
   */
  lemma HostRoundTrip(maxPayload: nat, s: HostState, id: u32, payload: seq<byte>)
    requires 1 <= |payload| <= Min(MAX_PAYLOAD, maxPayload)
    ensures FeedAll(maxPayload, s, HostFrames(id, payload))
              == Some(NothingUntilLast(FrameCount(|payload|), payload))
  {
    var fs := HostFrames(id, payload);
    HostTakesFirst(maxPayload, s, id, payload);
    if |payload| <= 7 {
      assert fs == [fs[0]];
      FeedLast(maxPayload, s, fs[0], payload);
    } else {
      RestRoundTrips(maxPayload, id, payload, 0);
      assert fs[1..] == Rest(id, payload, 0);
      FeedNext(maxPayload, s, fs, Midway(payload, 0), CfCount(|payload|), payload);
    }
  }

  /**
   * The sender refines the encoder. Whatever flow control, ticks and clock readings come in, what one transfer
   * of the embedded sender puts out is, byte for byte, a prefix of the encoder's list; and once it reports
   * completion, or if one frame was enough, it is the whole list.
   */
  lemma SenderRefinesEncoder(ep: Endpoint, tx: TxState, payload: seq<byte>, at: nat, ops: seq<T.Op>, t: nat)
    requires TxValid(tx) && 1 <= |payload| <= MAX_PAYLOAD && NoStart(ops)
    ensures var out := Output(ep, tx, payload, at, ops);
            var encoded := HostFrames(ep.responseId, payload);
            && 1 <= |out| <= |encoded|
            && (forall i :: 0 <= i < |out| ==> out[i].dlc <= 8 && Seen(out[i]) == encoded[i])
            && (|payload| <= 7 || T.Completes(ep, T.ApplyAll(ep, Started(ep, tx, payload, at), ops), t) ==>
                  |out| == |encoded|)
  {
    OutputIsPrefix(ep, tx, payload, at, ops, t);
    var out := Output(ep, tx, payload, at, ops);
    forall i | 0 <= i < |out| ensures out[i] == FrameAt(ep.responseId, payload, i) {
      assert out[i] == Frames(ep.responseId, payload)[i];
    }
  }

  /** The frames of a completed closed loop are exactly the encoder's frames. */
  lemma LinkRefinesEncoder(p: Pair, tx: TxState, rx: RxState, payload: seq<byte>, now: u32, actions: seq<Action>)
    requires p.Crossed() && TxValid(tx) && RxValid(rx) && 1 <= |payload| <= MAX_PAYLOAD
    requires Timely(p, Begin(p, tx, rx, payload, now), actions)
    ensures var l := Run(p, Begin(p, tx, rx, payload, now), actions);
            var encoded := HostFrames(p.sender.responseId, payload);
            && |l.sent| <= |encoded|
            && (forall i :: 0 <= i < |l.sent| ==> l.sent[i].dlc <= 8 && Seen(l.sent[i]) == encoded[i])
            && (Quiet(l) ==> |l.sent| == |encoded|)
  {
    ClosedLoopDelivers(p, tx, rx, payload, now, actions);
    var l := Run(p, Begin(p, tx, rx, payload, now), actions);
    forall i | 0 <= i < |l.sent|
      ensures l.sent[i] == FrameAt(p.sender.responseId, payload, i)
    {
      assert l.sent[i] == Frames(p.sender.responseId, payload)[i];
    }
  }
}
