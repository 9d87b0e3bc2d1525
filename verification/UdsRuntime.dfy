/**
 * The diagnostic server and the download below it, joined by the callbacks of the reference application.
 * Each keeps its own block counter; nothing but these callbacks keeps the two together.
 */
module UdsRuntime {
  import opened Words
  import opened Crc32
  import D = UdsDownload
  import S = UdsServer

  datatype Runtime = Runtime(server: S.Server, download: D.Download)

  /** The outcomes of the memory operations one request may lead to. */
  datatype Memory = Memory(erase: D.Result, program: D.Result, verify: D.Result)

  function AsBits(bytes: seq<byte>): (bits: seq<bv8>)
    ensures |bits| == |bytes|
  {
    seq(|bytes|, i requires 0 <= i < |bytes| => bytes[i] as bv8)
  }

  /** Four big-endian bytes as a checksum. */
  function AsChecksum(b: seq<byte>): bv32
    requires |b| == 4
  {
    ((b[0] as bv32) << 24) | ((b[1] as bv32) << 16) | ((b[2] as bv32) << 8) | (b[3] as bv32)
  }

  function Init(memory: D.MemoryMap, hasCallbacks: bool, installed: set<byte>, now: u32): Runtime {
    Runtime(S.Init(installed, now), D.Init(memory, hasCallbacks))
  }

  function Report(r: D.Result, failure: S.Code, value: seq<byte>, blockLength: u16): S.Reply {
    if r.Ok? then S.Reply(S.Ok, value, blockLength) else S.Reply(failure, [], 0)
  }

  const FAILED := S.Reply(S.Error, [], 0)

  /** What one forwarded call does to the download, what the download says and what the server is told. */
  function Begins(d: D.Download, address: u32, length: u32, now: u32, m: Memory): (D.Download, D.Result, S.Reply) {
    var (d', r) := D.Begin(d, address, length, now, m.erase);
    (d', r, Report(r, S.OutOfRange, [], d.memory.maxBlock))
  }

  function Writes(d: D.Download, block: byte, data: seq<byte>, now: u32, m: Memory): (D.Download, D.Result, S.Reply)
    requires D.Ready(d)
  {
    var (d', r) := D.Write(d, block, AsBits(data), now, m.program);
    (d', r, Report(r, S.ProgrammingFailure, [], 0))
  }

  /** The checksum the client sent along, or none; any other number of parameter bytes is an error. */
  function Promise(parameters: seq<byte>): Option<bv32> {
    if |parameters| == 5 then Some(AsChecksum(parameters[1..])) else None
  }

  function Exits(d: D.Download, parameters: seq<byte>, capacity: u16, now: u32, m: Memory)
    : (D.Download, D.Result, S.Reply)
  {
    if capacity < 2 || (|parameters| != 5 && |parameters| != 1) then (d, D.NotReady, FAILED)
    else
      var (d', r) := D.Finish(d, Promise(parameters), now, m.verify);
      (d', r, Report(r, S.ProgrammingFailure, [0], 0))
  }

  function Forward(d: D.Download, c: S.Call, capacity: u16, now: u32, m: Memory): (D.Download, D.Result, S.Reply)
    requires D.Ready(d)
  {
    match c
    case RequestDownload(address, length) => Begins(d, address, length, now, m)
    case TransferData(block, data) => Writes(d, block, data, now, m)
    case TransferExit(parameters) => Exits(d, parameters, capacity, now, m)
  }

  /** One request through both. `others` answers the callbacks that have nothing to do with the download. */
  function Serve(rt: Runtime, q: seq<byte>, capacity: u16, now: u32, others: S.Replies, m: Memory): (Runtime, S.Outcome)
    requires D.Ready(rt.download)
  {
    var call := S.Forwarded(rt.server, q);
    if capacity == 0 || call.None? then
      var o := S.Handle(rt.server, q, capacity, now, others);
      (Runtime(o.server, rt.download), o)
    else
      var (d', _, reply) := Forward(rt.download, call.value, capacity, now, m);
      var o := S.Handle(rt.server, q, capacity, now, _ => reply);
      (Runtime(o.server, d'), o)
  }

  datatype Event =
    | Request(q: seq<byte>, capacity: u16, now: u32, others: S.Replies, m: Memory)
    | SessionTick(now: u32)
    | DownloadTick(now: u32)
    | ErasePoll(now: u32, poll: D.Result)
    | Abandon

  function Step(rt: Runtime, e: Event): Runtime
    requires D.Ready(rt.download)
  {
    match e
    case Request(q, capacity, now, others, m) => Serve(rt, q, capacity, now, others, m).0
    case SessionTick(now) => rt.(server := S.Tick(rt.server, now).0)
    case DownloadTick(now) => rt.(download := D.Tick(rt.download, now).0)
    case ErasePoll(now, poll) => rt.(download := D.PollErase(rt.download, now, poll).0)
    case Abandon => rt.(download := D.Abort(rt.download))
  }

  /** The two counters agree whenever the server has a download open. */
  ghost predicate Twin(rt: Runtime) {
    rt.server.downloadActive ==> rt.server.nextBlock == rt.download.expectedBlock
  }

  // -------------------------------------------- the download's own invariants

  /** Every event is one step of the download, or leaves it alone. */
  function AsAction(rt: Runtime, e: Event): Option<D.Action> {
    match e
    case DownloadTick(now) => Some(D.DoTick(now))
    case ErasePoll(now, poll) => Some(D.DoPoll(now, poll))
    case Abandon => Some(D.DoAbort)
    case SessionTick(_) => None
    case Request(q, capacity, now, _, m) =>
      var call := S.Forwarded(rt.server, q);
      if capacity == 0 || call.None? then None
      else
        match call.value
        case RequestDownload(address, length) => Some(D.DoBegin(address, length, now, m.erase))
        case TransferData(block, data) => Some(D.DoWrite(block, AsBits(data), now, m.program))
        case TransferExit(parameters) =>
          if capacity < 2 || (|parameters| != 5 && |parameters| != 1) then None
          else Some(D.DoFinish(Promise(parameters), now, m.verify))
  }

  lemma EventIsAction(rt: Runtime, e: Event)
    requires D.Ready(rt.download)
    ensures var a := AsAction(rt, e);
            Step(rt, e).download == if a.None? then rt.download else D.Step(rt.download, a.value)
  {
  }

  lemma EventKeepsSound(rt: Runtime, e: Event)
    requires D.Sound(rt.download)
    ensures D.Sound(Step(rt, e).download)
  {
    EventIsAction(rt, e);
    var a := AsAction(rt, e);
    if a.Some? {
      D.StepKeepsSound(rt.download, a.value);
    }
  }

  // -------------------------------------------------------- the twin counters

  lemma SecurityLeavesTheTransfer(s: S.Server, q: seq<byte>, capacity: u16, replies: S.Replies)
    requires q != []
    ensures var s' := S.SecurityAccess(s, q, capacity, replies(0)).server;
            s' == s.(securityLevel := s'.securityLevel)
    ensures S.ReadData(s, q, capacity, replies).server == s
    ensures S.ReadDtc(s, q, capacity, replies(0)).server == s
    ensures S.RoutineControl(s, q, capacity, replies(0)).server == s
  {
  }

  /** Requests for other services do not touch the server's side of a download. */
  lemma OthersLeaveTheTransfer(s: S.Server, q: seq<byte>, capacity: u16, replies: S.Replies)
    requires q != [] && q[0] !in {0x34, 0x36, 0x37}
    ensures var o := S.OtherServices(s, q, capacity, replies);
            o.server.downloadActive == s.downloadActive && o.server.nextBlock == s.nextBlock
  {
    if q[0] in {0x19, 0x22, 0x27, 0x31} {
      SecurityLeavesTheTransfer(s, q, capacity, replies);
    }
  }

  lemma RefusedLeavesTheTransfer(s: S.Server, q: seq<byte>, capacity: u16, r: S.Reply)
    requires q != [] && |q| <= S.MAX_REQUEST && q[0] in {0x34, 0x36, 0x37} && S.Forwarded(s, q).None?
    ensures S.DownloadServices(s, q, capacity, r).server == s
  {
  }

  predicate Begun(d: D.Download, c: S.Call, now: u32, m: Memory)
    requires c.RequestDownload?
  {
    D.Begin(d, c.address, c.length, now, m.erase).1.Ok?
  }

  /** The one way to part the counters: a new image begins below, and the server has no room to say so. */
  predicate Parts(rt: Runtime, e: Event) {
    && e.Request? && 0 < e.capacity < 4
    && S.Forwarded(rt.server, e.q).Some? && S.Forwarded(rt.server, e.q).value.RequestDownload?
    && Begun(rt.download, S.Forwarded(rt.server, e.q).value, e.now, e.m)
    && rt.server.downloadActive && rt.server.nextBlock != 1
  }

  lemma BeginKeepsTwinExactly(s: S.Server, d: D.Download, q: seq<byte>, capacity: u16, now: u32, m: Memory)
    requires Twin(Runtime(s, d)) && capacity > 0 && q != [] && q[0] == 0x34
    requires S.Forwarded(s, q).Some?
    ensures var c := S.Forwarded(s, q).value;
            var (d', r, reply) := Begins(d, c.address, c.length, now, m);
            Twin(Runtime(S.RequestDownloadService(s, q, capacity, reply).server, d'))
            <==> !(capacity < 4 && r.Ok? && s.downloadActive && s.nextBlock != 1)
  {
  }

  lemma WriteKeepsTwin(s: S.Server, d: D.Download, q: seq<byte>, capacity: u16, now: u32, m: Memory)
    requires D.Ready(d) && Twin(Runtime(s, d)) && q != [] && q[0] == 0x36
    requires S.Forwarded(s, q).Some?
    ensures var (d', r, reply) := Writes(d, q[1], q[2..], now, m);
            Twin(Runtime(S.TransferDataService(s, q, capacity, reply).server, d'))
  {
  }

  lemma ExitKeepsTwin(s: S.Server, d: D.Download, q: seq<byte>, capacity: u16, now: u32, m: Memory)
    requires Twin(Runtime(s, d)) && q != [] && q[0] == 0x37
    ensures var (d', r, reply) := Exits(d, q[1..], capacity, now, m);
            Twin(Runtime(S.TransferExitService(s, q, capacity, reply).server, d'))
  {
    D.FinishEnds(d, Promise(q[1..]), now, m.verify);
    assert S.TransferExitService(s, q, capacity, Exits(d, q[1..], capacity, now, m).2).server.nextBlock == s.nextBlock;
  }

  lemma ForwardedKeepsTwinExactly(rt: Runtime, q: seq<byte>, capacity: u16, now: u32, others: S.Replies, m: Memory)
    requires D.Ready(rt.download) && Twin(rt) && capacity > 0 && S.Forwarded(rt.server, q).Some?
    ensures Twin(Serve(rt, q, capacity, now, others, m).0) <==> !Parts(rt, Request(q, capacity, now, others, m))
  {
    var s := rt.server.(lastActivityMs := now);
    assert S.Forwarded(s, q) == S.Forwarded(rt.server, q);
    if q[0] == 0x34 {
      BeginKeepsTwinExactly(s, rt.download, q, capacity, now, m);
    } else if q[0] == 0x36 {
      WriteKeepsTwin(s, rt.download, q, capacity, now, m);
    } else {
      ExitKeepsTwin(s, rt.download, q, capacity, now, m);
    }
  }

  /** A step keeps the counters together exactly when it is not the one that parts them. */
  lemma StepKeepsTwinExactly(rt: Runtime, e: Event)
    requires D.Ready(rt.download) && Twin(rt)
    ensures Twin(Step(rt, e)) <==> !Parts(rt, e)
  {
    if e.Request? && e.capacity > 0 && e.q != [] && |e.q| <= S.MAX_REQUEST {
      if S.Forwarded(rt.server, e.q).Some? {
        ForwardedKeepsTwinExactly(rt, e.q, e.capacity, e.now, e.others, e.m);
      } else {
        var s := rt.server.(lastActivityMs := e.now);
        if e.q[0] in {0x34, 0x36, 0x37} {
          RefusedLeavesTheTransfer(s, e.q, e.capacity, e.others(0));
        } else {
          OthersLeaveTheTransfer(s, e.q, e.capacity, e.others);
        }
      }
    }
  }

  /** Every request brings a response buffer of at least four bytes. */
  predicate Roomy(events: seq<Event>) {
    forall i :: 0 <= i < |events| && events[i].Request? ==> events[i].capacity >= 4
  }

  ghost predicate Inv(rt: Runtime) {
    Twin(rt) && D.Sound(rt.download)
  }

  lemma StepKeepsInv(rt: Runtime, e: Event)
    requires Inv(rt) && (e.Request? ==> e.capacity >= 4)
    ensures Inv(Step(rt, e))
  {
    StepKeepsTwinExactly(rt, e);
    EventKeepsSound(rt, e);
  }

  function Run(rt: Runtime, events: seq<Event>): (rt': Runtime)
    requires Inv(rt) && Roomy(events)
    ensures Inv(rt')
    decreases |events|
  {
    if |events| == 0 then rt else StepKeepsInv(rt, events[0]); Run(Step(rt, events[0]), events[1..])
  }

  /**
   * Twin block counters. Over every run of requests with room for four bytes, ticks, polls and aborts: a
   * block the server accepts is the very block the download expects, its number is one more than the
   * blocks programmed so far modulo 256, and the download never answers it with a sequence error.
   */
  lemma TwinBlockCounters(memory: D.MemoryMap, hasCallbacks: bool, installed: set<byte>, start: u32,
                          events: seq<Event>, q: seq<byte>, now: u32, m: Memory)
    requires Roomy(events)
    requires S.Forwarded(Run(Init(memory, hasCallbacks, installed, start), events).server, q).Some?
    requires S.Forwarded(Run(Init(memory, hasCallbacks, installed, start), events).server, q).value.TransferData?
    ensures var rt := Run(Init(memory, hasCallbacks, installed, start), events);
            var c := S.Forwarded(rt.server, q).value;
            && c.block == rt.download.expectedBlock == (1 + |rt.download.programs|) % 256
            && !D.Write(rt.download, c.block, AsBits(c.data), now, m.program).1.SequenceError?
  {
  }

  // ---------------------------------------------- what the client may conclude

  /** A block that is acknowledged has been programmed behind the ones before, exactly as sent. */
  lemma AcknowledgedBlockIsProgrammed(rt: Runtime, q: seq<byte>, capacity: u16, now: u32, others: S.Replies, m: Memory)
    requires D.Ready(rt.download) && q != [] && q[0] == 0x36
    ensures var (rt', o) := Serve(rt, q, capacity, now, others, m);
            S.Acknowledges(o, 0x36) ==>
              && |q| >= 3 && o.response == [0x76, q[1]]
              && rt'.download.programs == rt.download.programs
                   + [D.Program(Add32(rt.download.imageAddress, rt.download.received), AsBits(q[2..]))]
  {
    if S.Forwarded(rt.server, q).Some? {
      var s := rt.server.(lastActivityMs := now);
      assert S.Forwarded(s, q) == S.Forwarded(rt.server, q);
    }
  }

  lemma AcknowledgedExitFinished(rt: Runtime, q: seq<byte>, capacity: u16, now: u32, others: S.Replies, m: Memory)
    requires D.Ready(rt.download) && q != [] && q[0] == 0x37
    ensures var (rt', o) := Serve(rt, q, capacity, now, others, m);
            S.Acknowledges(o, 0x37) ==>
              && rt'.download.phase.Complete? && rt'.download.promised == Promise(q[1..])
              && (|q| == 6 || |q| == 2)
  {
  }

  /**
   * The end of a download as the client sees it. In every run, when the exit request is acknowledged, all
   * bytes of the image were programmed in order, and the checksum sent with it is their CRC-32.
   */
  lemma AcknowledgedExitIsComplete(memory: D.MemoryMap, hasCallbacks: bool, installed: set<byte>, start: u32,
                                   events: seq<Event>, q: seq<byte>, capacity: u16, now: u32,
                                   others: S.Replies, m: Memory)
    requires Roomy(events) && q != [] && q[0] == 0x37
    ensures var rt := Run(Init(memory, hasCallbacks, installed, start), events);
            var (rt', o) := Serve(rt, q, capacity, now, others, m);
            var image := D.Written(rt'.download.programs);
            S.Acknowledges(o, 0x37) ==>
              && |image| == rt'.download.imageLength
              && (|q| == 6 ==> Crc(image) == AsChecksum(q[2..]))
  {
    var rt := Run(Init(memory, hasCallbacks, installed, start), events);
    AcknowledgedExitFinished(rt, q, capacity, now, others, m);
    EventKeepsSound(rt, Request(q, capacity, now, others, m));
    if |q| == 6 {
      assert q[1..][1..] == q[2..];
    }
  }

  // -------------------------------------------------------- why four bytes

  /** An eight-byte image of which `blocks` four-byte blocks have arrived. */
  ghost function Partway(phase: D.Phase, blocks: nat): Runtime
    requires blocks <= 1
  {
    var empty := D.Region(0, 0);
    var memory := D.MemoryMap(D.Region(0, 0x1000), empty, empty, empty, empty, 4, 4, 256, false);
    Runtime(S.Init({0x34, 0x36, 0x37}, 0).(downloadActive := true, nextBlock := 1 + blocks, maxBlock := 256),
            D.Download(memory, true, phase, true, 0, 8, 4 * blocks, false, false, 1 + blocks, D.TIMEOUT_MS,
                       if blocks == 0 then INITIAL else Update(INITIAL, [1, 2, 3, 4]),
                       if blocks == 0 then [] else [D.Program(0, [1, 2, 3, 4])], None))
  }

  function Ask(capacity: u16): Event {
    Request([0x34, 0x11, 0, 8], capacity, 0, _ => FAILED, Memory(D.Ok, D.Ok, D.Ok))
  }

  function Send(): Event {
    Request([0x36, 1, 1, 2, 3, 4], 4, 0, _ => FAILED, Memory(D.Ok, D.Ok, D.Ok))
  }

  lemma AskIsForwarded(s: S.Server, capacity: u16)
    requires 0x34 in s.installed
    ensures S.Forwarded(s, Ask(capacity).q) == Some(S.RequestDownload(0, 8))
  {
    var q := Ask(capacity).q;
    assert q[2..3] == [0] && q[3..] == [8];
    assert S.BigEndian([0]) == 0 && S.BigEndian([8]) == 8;
  }

  lemma AskOpens(memory: D.MemoryMap)
    requires memory == Partway(D.Idle, 0).download.memory
    ensures Step(Init(memory, true, {0x34, 0x36, 0x37}, 0), Ask(4)) == Partway(D.Erasing, 0)
  {
    AskIsForwarded(S.Init({0x34, 0x36, 0x37}, 0), 4);
  }

  lemma PollReceives()
    ensures Step(Partway(D.Erasing, 0), ErasePoll(0, D.Ok)) == Partway(D.Receiving, 0)
  {
  }

  lemma SendMoves()
    ensures Step(Partway(D.Receiving, 0), Send()) == Partway(D.Receiving, 1)
  {
    var q := Send().q;
    assert q[2..] == [1, 2, 3, 4];
    assert S.Forwarded(Partway(D.Receiving, 0).server, q) == Some(S.TransferData(1, [1, 2, 3, 4]));
    assert AsBits([1, 2, 3, 4]) == [1, 2, 3, 4];
    assert [] + [D.Program(0, [1, 2, 3, 4])] == [D.Program(0, [1, 2, 3, 4])];
  }

  lemma RunOfThree(rt: Runtime, e0: Event, e1: Event, e2: Event, r1: Runtime, r2: Runtime, r3: Runtime)
    requires Inv(rt) && Roomy([e0, e1, e2])
    requires Step(rt, e0) == r1 && D.Ready(r1.download) && Step(r1, e1) == r2
    requires D.Ready(r2.download) && Step(r2, e2) == r3
    ensures Run(rt, [e0, e1, e2]) == r3 && Inv(r3)
  {
    var events := [e0, e1, e2];
    assert events[0] == e0 && events[1..] == [e1, e2] && [e1, e2][1..] == [e2];
    StepKeepsInv(rt, events[0]);
    StepKeepsInv(r1, events[1]);
    StepKeepsInv(r2, events[2]);
    assert [e2][0] == e2 && |[e2][1..]| == 0;
    assert Run(r3, [e2][1..]) == r3;
    assert Run(r2, [e2]) == r3;
    assert Run(r1, [e1, e2]) == r3;
  }

  lemma AskParts()
    requires Inv(Partway(D.Receiving, 1))
    ensures !Twin(Step(Partway(D.Receiving, 1), Ask(3)))
  {
    var rt := Partway(D.Receiving, 1);
    AskIsForwarded(rt.server, 3);
    StepKeepsTwinExactly(rt, Ask(3));
  }

  lemma PartwayIsReached(memory: D.MemoryMap)
    requires memory == Partway(D.Idle, 0).download.memory
    ensures Run(Init(memory, true, {0x34, 0x36, 0x37}, 0), [Ask(4), ErasePoll(0, D.Ok), Send()])
              == Partway(D.Receiving, 1)
    ensures Inv(Partway(D.Receiving, 1))
  {
    AskOpens(memory);
    PollReceives();
    SendMoves();
    RunOfThree(Init(memory, true, {0x34, 0x36, 0x37}, 0), Ask(4), ErasePoll(0, D.Ok), Send(),
               Partway(D.Erasing, 0), Partway(D.Receiving, 0), Partway(D.Receiving, 1));
  }

  /** A run with room in every request, after which this three-byte request parts the counters. */
  ghost predicate PartsAfter(memory: D.MemoryMap, events: seq<Event>, e: Event) {
    && Roomy(events) && e.Request? && e.capacity == 3
    && !Twin(Step(Run(Init(memory, true, {0x34, 0x36, 0x37}, 0), events), e))
  }

  lemma AskPartsAfter(memory: D.MemoryMap)
    requires memory == Partway(D.Idle, 0).download.memory
    ensures PartsAfter(memory, [Ask(4), ErasePoll(0, D.Ok), Send()], Ask(3))
  {
    PartwayIsReached(memory);
    AskParts();
  }

  /** With less room the counters can part: an open download with one block received, and a buffer of three bytes. */
  lemma ThreeBytesPartTheCounters()
    ensures exists memory: D.MemoryMap, events: seq<Event>, e: Event :: PartsAfter(memory, events, e)
  {
    AskPartsAfter(Partway(D.Idle, 0).download.memory);
  }
}
