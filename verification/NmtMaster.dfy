/**
 * The NMT master supervising up to 127 nodes. Its log lists what it emits, in order, together with the
 * calls that begin supervision anew, so that statements about whole runs are statements about the log.
 */
module NmtMaster {
  import opened Words

  const MAX_NODES: nat := 127
  const HEARTBEAT_BASE: u16 := 0x700
  const DEFAULT_BOOT_TIME_MS: u32 := 10000
  const START: byte := 1

  datatype NodeState = Unassigned | WaitingBootup | PreOp | Operational | Stopped | TimedOut

  datatype Node = Node(isAssigned: bool, mandatory: bool, autoStart: bool, timeoutMs: u16, lastMs: u32, state: NodeState)

  datatype Entry =
    | Started(at: u32)
    | Configured(node: nat)
    | Bootup(node: nat, at: u32)
    | Heartbeat(node: nat, state: byte, at: u32)
    | HeartbeatTimeout(node: nat, at: u32)
    | BootTimeout(node: nat, at: u32)
    | NetworkReady(at: u32)
    | InvalidFrame(node: nat, state: byte, at: u32)
    | Sent(command: byte, node: nat, automatic: bool)

  datatype Master = Master(masterId: byte, hasSend: bool, startup: u32, bootTimeMs: u32, now: u32, startedAt: u32,
                           running: bool, ready: bool, bootReported: bool, nodes: seq<Node>, log: seq<Entry>)

  const BLANK := Node(false, false, false, 0, 0, Unassigned)

  function Init(masterId: byte, hasSend: bool): (m: Master)
    ensures Inv(m)
  {
    Master(masterId, hasSend, 0, DEFAULT_BOOT_TIME_MS, 0, 0, false, false, false, seq(MAX_NODES + 1, _ => BLANK), [])
  }

  predicate Shaped(m: Master) {
    |m.nodes| == MAX_NODES + 1
  }

  predicate IsNode(n: int) {
    1 <= n <= MAX_NODES
  }

  function Emit(m: Master, e: Entry): Master {
    m.(log := m.log + [e])
  }

  // -------------------------------------------------------------- operations

  function Configure(m: Master, n: byte, mandatory: bool, autoStart: bool, timeoutMs: u16): (Master, bool)
    requires Shaped(m)
  {
    if !IsNode(n) || n == m.masterId then (m, false)
    else
      (Emit(m.(nodes := m.nodes[n := Node(true, mandatory, autoStart, timeoutMs, m.nodes[n].lastMs, WaitingBootup)]),
            Configured(n)),
       true)
  }

  predicate CommandValid(command: byte) {
    command in {START, 2, 0x80, 0x81, 0x82}
  }

  /** A command frame goes out, unless it is malformed or there is nothing to send with. */
  function Request(m: Master, command: byte, n: nat, automatic: bool): Master {
    if !m.hasSend || !CommandValid(command) || n > MAX_NODES then m else Emit(m, Sent(command, n, automatic))
  }

  /** Bit 0 of the startup policy: this device is the NMT master. */
  predicate IsMaster(startup: u32) {
    startup % 2 == 1
  }

  /** Bit 3: the application starts the nodes, not the master. */
  predicate ApplicationStarts(startup: u32) {
    startup / 8 % 2 == 1
  }

  function Waiting(node: Node, now: u32): Node {
    if node.isAssigned then node.(state := WaitingBootup, lastMs := now) else node
  }

  function AllWaiting(nodes: seq<Node>, now: u32): (r: seq<Node>)
    ensures |r| == |nodes|
  {
    seq(|nodes|, i requires 0 <= i < |nodes| => if i == 0 then nodes[0] else Waiting(nodes[i], now))
  }

  function StartSupervision(m: Master, now: u32): (Master, bool)
    requires Shaped(m)
  {
    if !m.hasSend || !IsMaster(m.startup) then (m, false)
    else
      (Emit(m.(now := now, startedAt := now, running := true, ready := false, bootReported := false,
               nodes := AllWaiting(m.nodes, now)),
            Started(now)),
       true)
  }

  /** The node state a heartbeat byte reports, or None for a byte that is no state. */
  function Reported(state: byte): Option<NodeState> {
    if state == 0 || state == 0x7F then Some(PreOp)
    else if state == 5 then Some(Operational)
    else if state == 4 then Some(Stopped)
    else None
  }

  function HeardFrom(m: Master, n: nat, state: byte): Master
    requires Shaped(m) && n <= MAX_NODES
  {
    var node := m.nodes[n].(lastMs := m.now);
    match Reported(state)
    case None => Emit(m.(nodes := m.nodes[n := node]), InvalidFrame(n, state, m.now))
    case Some(s) =>
      Emit(m.(nodes := m.nodes[n := node.(state := s)]),
           if state == 0 then Bootup(n, m.now) else Heartbeat(n, state, m.now))
  }

  function Receive(m: Master, canId: u16, state: byte, dlc: byte, now: u32): Master
    requires Shaped(m)
  {
    if !m.running then m
    else if dlc != 1 || canId < HEARTBEAT_BASE || canId > HEARTBEAT_BASE + MAX_NODES then
      Emit(m.(now := now), InvalidFrame(0, 0, now))
    else if !m.nodes[canId - HEARTBEAT_BASE].isAssigned then m.(now := now)
    else HeardFrom(m.(now := now), canId - HEARTBEAT_BASE, state)
  }

  predicate Late(node: Node, now: u32) {
    node.isAssigned && node.timeoutMs != 0 && Sub32(now, node.lastMs) > node.timeoutMs
  }

  function ExpireOne(m: Master, n: nat): Master
    requires Shaped(m) && n <= MAX_NODES
  {
    if Late(m.nodes[n], m.now) && m.nodes[n].state != TimedOut then
      Emit(m.(nodes := m.nodes[n := m.nodes[n].(state := TimedOut)]), HeartbeatTimeout(n, m.now))
    else m
  }

  function ExpireFrom(m: Master, n: nat): (m': Master)
    requires Shaped(m) && n <= MAX_NODES + 1
    ensures Shaped(m') && m' == m.(nodes := m'.nodes, log := m'.log)
    decreases MAX_NODES + 1 - n
  {
    if n > MAX_NODES then m else ExpireFrom(ExpireOne(m, n), n + 1)
  }

  /** A mandatory node that is not there. */
  predicate Missing(node: Node) {
    node.isAssigned && node.mandatory && (node.state.WaitingBootup? || node.state.TimedOut?)
  }

  predicate MandatoryNodesReady(nodes: seq<Node>) {
    forall n :: 1 <= n < |nodes| ==> !Missing(nodes[n])
  }

  predicate AnyAssigned(nodes: seq<Node>) {
    exists n :: 1 <= n < |nodes| && nodes[n].isAssigned
  }

  function FirstMissing(nodes: seq<Node>, n: nat): (first: nat)
    requires 1 <= n <= |nodes| && exists k :: n <= k < |nodes| && Missing(nodes[k])
    ensures n <= first < |nodes| && Missing(nodes[first])
    ensures forall k :: n <= k < first ==> !Missing(nodes[k])
    decreases |nodes| - n
  {
    if n < |nodes| && Missing(nodes[n]) then n else FirstMissing(nodes, n + 1)
  }

  function AutoStartFrom(m: Master, n: nat): (m': Master)
    requires Shaped(m) && n <= MAX_NODES + 1
    ensures m' == m.(log := m'.log)
    decreases MAX_NODES + 1 - n
  {
    if n > MAX_NODES then m
    else if m.nodes[n].isAssigned && m.nodes[n].autoStart then AutoStartFrom(Request(m, START, n, true), n + 1)
    else AutoStartFrom(m, n + 1)
  }

  predicate BootOverdue(m: Master) {
    m.bootTimeMs != 0 && !m.bootReported && Sub32(m.now, m.startedAt) > m.bootTimeMs
  }

  function ReportReady(m: Master): Master
    requires Shaped(m)
  {
    var m' := Emit(m.(ready := true), NetworkReady(m.now));
    if ApplicationStarts(m.startup) then m' else AutoStartFrom(m', 1)
  }

  /** What follows the heartbeat check. */
  function Conclude(m: Master): Master
    requires Shaped(m)
  {
    if !MandatoryNodesReady(m.nodes) then
      if BootOverdue(m) then Emit(m.(bootReported := true), BootTimeout(FirstMissing(m.nodes, 1), m.now)) else m
    else if !m.ready && AnyAssigned(m.nodes) then ReportReady(m)
    else m
  }

  function Process(m: Master, now: u32): Master
    requires Shaped(m)
  {
    if !m.running then m else Conclude(ExpireFrom(m.(now := now), 1))
  }

  // ------------------------------------------------------ reading the log

  /** Things the log may hold at most once until something clears the way for them again. */
  datatype Key = Overdue(n: nat) | Alive(n: nat) | AllReady | BootLate | Begun(n: nat)

  /** A heartbeat or boot-up message of this node with a valid state. */
  ghost predicate ValidState(e: Entry, n: nat) {
    (e.Bootup? || e.Heartbeat?) && e.node == n
  }

  ghost predicate Matches(e: Entry, key: Key) {
    match key
    case Overdue(n) => e.HeartbeatTimeout? && e.node == n
    case Alive(n) => ValidState(e, n)
    case AllReady => e.NetworkReady?
    case BootLate => e.BootTimeout?
    case Begun(n) => e == Sent(START, n, true)
  }

  ghost predicate Clears(e: Entry, key: Key) {
    match key
    case Overdue(n) => e.Started? || e == Configured(n) || ValidState(e, n)
    case Alive(n) => e.Started? || e == Configured(n)
    case _ => e.Started?
  }

  /** The log holds a match that nothing after it has cleared. */
  ghost predicate Open(log: seq<Entry>, key: Key) {
    log != [] &&
    var e := log[|log| - 1];
    Matches(e, key) || (!Clears(e, key) && Open(log[..|log| - 1], key))
  }

  ghost predicate Separated(log: seq<Entry>, key: Key) {
    forall i :: 0 <= i < |log| && Matches(log[i], key) ==> !Open(log[..i], key)
  }

  /** Any message of this node: also a byte that is no state counts as a sign of life. */
  ghost predicate Speaks(e: Entry, n: nat) {
    (e.Bootup? || e.Heartbeat? || e.InvalidFrame?) && e.node == n
  }

  /** When the node last spoke, or supervision of it started; 0 before either. */
  ghost function LastHeard(log: seq<Entry>, n: nat): u32 {
    if log == [] then 0
    else
      var before, e := log[..|log| - 1], log[|log| - 1];
      if Speaks(e, n) || (e.Started? && Configured(n) in before) then e.at else LastHeard(before, n)
  }

  /** By the log, nothing has been heard of the node for longer than `timeoutMs`. */
  ghost predicate Silent(log: seq<Entry>, n: nat, timeoutMs: u16, now: u32) {
    timeoutMs != 0 && Sub32(now, LastHeard(log, n)) > timeoutMs
  }

  lemma LastHeardMore(log: seq<Entry>, e: Entry, n: nat)
    ensures LastHeard(log + [e], n)
              == if Speaks(e, n) || (e.Started? && Configured(n) in log) then e.at else LastHeard(log, n)
    ensures Configured(n) in log + [e] <==> Configured(n) in log || e == Configured(n)
  {
    assert (log + [e])[..|log|] == log;
  }

  lemma OneMore(log: seq<Entry>, e: Entry, key: Key)
    ensures Open(log + [e], key) <==> Matches(e, key) || (!Clears(e, key) && Open(log, key))
    ensures Separated(log + [e], key) <==> Separated(log, key) && (Matches(e, key) ==> !Open(log, key))
  {
    var l := log + [e];
    assert l[..|log|] == log;
    assert forall i :: 0 <= i < |log| ==> l[..i] == log[..i] && l[i] == log[i];
    if Separated(l, key) {
      assert l[|log|] == e;
      forall i | 0 <= i < |log| && Matches(log[i], key) ensures !Open(log[..i], key) {
        assert Matches(l[i], key);
      }
    }
  }

  lemma {:induction false} OpenStays(log: seq<Entry>, i: nat, key: Key)
    requires i < |log| && Matches(log[i], key)
    requires forall k :: i < k < |log| ==> !Clears(log[k], key)
    ensures Open(log, key)
    decreases |log|
  {
    if i < |log| - 1 {
      OpenStays(log[..|log| - 1], i, key);
    }
  }

  /** Between two matches of a separated key there is something that clears it. */
  lemma SeparatedMeansCleared(log: seq<Entry>, key: Key, i: nat, j: nat)
    requires Separated(log, key) && i < j < |log| && Matches(log[i], key) && Matches(log[j], key)
    ensures exists k :: i < k < j && Clears(log[k], key)
  {
    if forall k :: i < k < j ==> !Clears(log[k], key) {
      OpenStays(log[..j], i, key);
    }
  }

  // ---------------------------------------------------------------- invariant

  predicate Up(s: NodeState) {
    s.PreOp? || s.Operational? || s.Stopped?
  }

  /** The state kept for a node says what the log says. */
  ghost predicate NodeInv(node: Node, log: seq<Entry>, n: nat) {
    && (node.state.TimedOut? <==> Open(log, Overdue(n)))
    && (Up(node.state) <==> Open(log, Alive(n)) && !Open(log, Overdue(n)))
    && (node.state.Unassigned? <==> !node.isAssigned)
    && Separated(log, Overdue(n))
  }

  ghost predicate NodesInv(m: Master)
    requires Shaped(m)
  {
    forall n :: 0 <= n < |m.nodes| ==> NodeInv(m.nodes[n], m.log, n)
  }

  /** Which nodes are assigned, and when each was last heard, is what the log says. */
  ghost predicate ClockInv(m: Master)
    requires Shaped(m)
  {
    forall n :: 1 <= n < |m.nodes| ==>
      (m.nodes[n].isAssigned <==> Configured(n) in m.log) && m.nodes[n].lastMs == LastHeard(m.log, n)
  }

  lemma ClockStep(m: Master, m': Master, e: Entry)
    requires Shaped(m) && Shaped(m') && ClockInv(m) && m'.log == m.log + [e]
    requires forall n :: 1 <= n < |m.nodes| ==>
               && (m'.nodes[n].isAssigned <==> m.nodes[n].isAssigned || e == Configured(n))
               && m'.nodes[n].lastMs == if Speaks(e, n) || (e.Started? && m.nodes[n].isAssigned) then e.at
                                        else m.nodes[n].lastMs
    ensures ClockInv(m')
  {
    forall n | 1 <= n < |m'.nodes|
      ensures (m'.nodes[n].isAssigned <==> Configured(n) in m'.log) && m'.nodes[n].lastMs == LastHeard(m'.log, n)
    {
      LastHeardMore(m.log, e, n);
    }
  }

  /** The latched flags say what the log says. */
  ghost predicate LatchInv(m: Master) {
    && (m.ready <==> Open(m.log, AllReady))
    && (m.bootReported <==> Open(m.log, BootLate))
    && Separated(m.log, AllReady) && Separated(m.log, BootLate)
  }

  ghost predicate StartInv(m: Master) {
    forall n :: IsNode(n) ==> (Open(m.log, Begun(n)) ==> m.ready) && Separated(m.log, Begun(n))
  }

  ghost predicate Inv(m: Master) {
    && Shaped(m) && NodesInv(m) && ClockInv(m) && LatchInv(m) && StartInv(m)
    && !m.nodes[0].isAssigned && (m.running ==> m.hasSend)
  }

  // -------------------------------------------------------- keeping the nodes

  /** An entry that concerns node n, with the node's new record; every other node is as before. */
  lemma OneNodeChanges(m: Master, n: nat, node: Node, e: Entry)
    requires Shaped(m) && n <= MAX_NODES && NodesInv(m)
    requires NodeInv(node, m.log + [e], n)
    requires forall k :: 0 <= k <= MAX_NODES && k != n ==>
               !Matches(e, Overdue(k)) && !Clears(e, Overdue(k)) && !Matches(e, Alive(k)) && !Clears(e, Alive(k))
    ensures NodesInv(Emit(m.(nodes := m.nodes[n := node]), e))
  {
    var m' := Emit(m.(nodes := m.nodes[n := node]), e);
    forall k | 0 <= k <= MAX_NODES ensures NodeInv(m'.nodes[k], m'.log, k) {
      if k != n {
        assert NodeInv(m.nodes[k], m.log, k);
        OneMore(m.log, e, Overdue(k));
        OneMore(m.log, e, Alive(k));
      }
    }
  }

  /** An entry that concerns no node. */
  lemma NoNodeChanges(m: Master, e: Entry)
    requires Shaped(m) && NodesInv(m) && (e.BootTimeout? || e.NetworkReady? || e.InvalidFrame? || e.Sent?)
    ensures NodesInv(Emit(m, e))
  {
    forall k | 0 <= k <= MAX_NODES ensures NodeInv(m.nodes[k], m.log + [e], k) {
      assert NodeInv(m.nodes[k], m.log, k);
      OneMore(m.log, e, Overdue(k));
      OneMore(m.log, e, Alive(k));
    }
  }

  lemma LatchesStay(m: Master, e: Entry)
    requires LatchInv(m) && StartInv(m)
    requires !e.Started? && !e.NetworkReady? && !e.BootTimeout? && !(e.Sent? && e.automatic)
    ensures LatchInv(Emit(m, e)) && StartInv(Emit(m, e))
  {
    OneMore(m.log, e, AllReady);
    OneMore(m.log, e, BootLate);
    forall n | IsNode(n) ensures (Open(m.log + [e], Begun(n)) ==> m.ready) && Separated(m.log + [e], Begun(n)) {
      OneMore(m.log, e, Begun(n));
    }
  }

  lemma ConfigureKeepsInv(m: Master, n: byte, mandatory: bool, autoStart: bool, timeoutMs: u16)
    requires Inv(m)
    ensures Inv(Configure(m, n, mandatory, autoStart, timeoutMs).0)
  {
    if IsNode(n) && n != m.masterId {
      var node := Node(true, mandatory, autoStart, timeoutMs, m.nodes[n].lastMs, WaitingBootup);
      OneMore(m.log, Configured(n), Overdue(n));
      OneMore(m.log, Configured(n), Alive(n));
      assert NodeInv(m.nodes[n], m.log, n);
      OneNodeChanges(m, n, node, Configured(n));
      ClockStep(m, Emit(m.(nodes := m.nodes[n := node]), Configured(n)), Configured(n));
      LatchesStay(m.(nodes := m.nodes[n := node]), Configured(n));
    }
  }

  /** A node's record after a valid state, or after a byte that is none. */
  lemma HeardNodeInv(node: Node, log: seq<Entry>, n: nat, s: NodeState, e: Entry)
    requires NodeInv(node, log, n) && node.isAssigned && Up(s) && ValidState(e, n)
    ensures NodeInv(node.(state := s), log + [e], n)
  {
    OneMore(log, e, Overdue(n));
    OneMore(log, e, Alive(n));
  }

  lemma UnheardNodeInv(node: Node, log: seq<Entry>, n: nat, e: Entry)
    requires NodeInv(node, log, n) && e.InvalidFrame?
    ensures NodeInv(node, log + [e], n)
  {
    OneMore(log, e, Overdue(n));
    OneMore(log, e, Alive(n));
  }

  lemma HeardFromKeepsInv(m: Master, n: nat, state: byte)
    requires Inv(m) && n <= MAX_NODES && m.nodes[n].isAssigned
    ensures Inv(HeardFrom(m, n, state))
  {
    assert NodeInv(m.nodes[n], m.log, n);
    var node := m.nodes[n].(lastMs := m.now);
    assert NodeInv(node, m.log, n);
    match Reported(state) {
      case None =>
        var e := InvalidFrame(n, state, m.now);
        UnheardNodeInv(node, m.log, n, e);
        OneNodeChanges(m, n, node, e);
        ClockStep(m, Emit(m.(nodes := m.nodes[n := node]), e), e);
        LatchesStay(m.(nodes := m.nodes[n := node]), e);
      case Some(s) =>
        ValidByteKeepsInv(m, n, node, s, if state == 0 then Bootup(n, m.now) else Heartbeat(n, state, m.now));
    }
  }

  lemma ValidByteKeepsInv(m: Master, n: nat, node: Node, s: NodeState, e: Entry)
    requires Inv(m) && n <= MAX_NODES && m.nodes[n].isAssigned && node.isAssigned && Up(s) && ValidState(e, n)
    requires NodeInv(node, m.log, n) && node.lastMs == e.at
    ensures Inv(Emit(m.(nodes := m.nodes[n := node.(state := s)]), e))
  {
    ClockStep(m, Emit(m.(nodes := m.nodes[n := node.(state := s)]), e), e);
    HeardNodeInv(node, m.log, n, s, e);
    OneNodeChanges(m, n, node.(state := s), e);
    LatchesStay(m.(nodes := m.nodes[n := node.(state := s)]), e);
  }

  lemma ReceiveKeepsInv(m: Master, canId: u16, state: byte, dlc: byte, now: u32)
    requires Inv(m)
    ensures Inv(Receive(m, canId, state, dlc, now))
  {
    var m1 := m.(now := now);
    if m.running {
      if dlc != 1 || canId < HEARTBEAT_BASE || canId > HEARTBEAT_BASE + MAX_NODES {
        NoNodeChanges(m1, InvalidFrame(0, 0, now));
        ClockStep(m1, Emit(m1, InvalidFrame(0, 0, now)), InvalidFrame(0, 0, now));
        LatchesStay(m1, InvalidFrame(0, 0, now));
      } else if m.nodes[canId - HEARTBEAT_BASE].isAssigned {
        HeardFromKeepsInv(m1, canId - HEARTBEAT_BASE, state);
      }
    }
  }

  lemma RequestKeepsInv(m: Master, command: byte, n: nat)
    requires Inv(m)
    ensures Inv(Request(m, command, n, false))
  {
    NoNodeChanges(m, Sent(command, n, false));
    ClockStep(m, Emit(m, Sent(command, n, false)), Sent(command, n, false));
    LatchesStay(m, Sent(command, n, false));
  }

  lemma StartKeepsInv(m: Master, now: u32)
    requires Inv(m)
    ensures Inv(StartSupervision(m, now).0)
  {
    var m' := StartSupervision(m, now).0;
    if m'.log != m.log {
      var e := Started(now);
      ClockStep(m, m', e);
      OneMore(m.log, e, AllReady);
      OneMore(m.log, e, BootLate);
      forall n | 0 <= n <= MAX_NODES ensures NodeInv(m'.nodes[n], m'.log, n) {
        assert NodeInv(m.nodes[n], m.log, n);
        OneMore(m.log, e, Overdue(n));
        OneMore(m.log, e, Alive(n));
      }
      forall n | IsNode(n) ensures (Open(m'.log, Begun(n)) ==> m'.ready) && Separated(m'.log, Begun(n)) {
        OneMore(m.log, e, Begun(n));
      }
    }
  }

  // -------------------------------------------------------------- processing

  lemma TimedOutNodeInv(node: Node, log: seq<Entry>, n: nat, at: u32)
    requires NodeInv(node, log, n) && node.isAssigned && !node.state.TimedOut?
    ensures NodeInv(node.(state := TimedOut), log + [HeartbeatTimeout(n, at)], n)
  {
    OneMore(log, HeartbeatTimeout(n, at), Overdue(n));
    OneMore(log, HeartbeatTimeout(n, at), Alive(n));
  }

  lemma TimeoutKeepsInv(m: Master, n: nat)
    requires Inv(m) && IsNode(n) && m.nodes[n].isAssigned && !m.nodes[n].state.TimedOut?
    ensures Inv(Emit(m.(nodes := m.nodes[n := m.nodes[n].(state := TimedOut)]), HeartbeatTimeout(n, m.now)))
  {
    var e, node := HeartbeatTimeout(n, m.now), m.nodes[n].(state := TimedOut);
    assert NodeInv(m.nodes[n], m.log, n);
    TimedOutNodeInv(m.nodes[n], m.log, n, m.now);
    OneNodeChanges(m, n, node, e);
    ClockStep(m, Emit(m.(nodes := m.nodes[n := node]), e), e);
    LatchesStay(m.(nodes := m.nodes[n := node]), e);
  }

  lemma ExpireOneKeepsInv(m: Master, n: nat)
    requires Inv(m) && IsNode(n)
    ensures Inv(ExpireOne(m, n))
  {
    if Late(m.nodes[n], m.now) && m.nodes[n].state != TimedOut {
      TimeoutKeepsInv(m, n);
    }
  }

  lemma {:induction false} ExpireFromKeepsInv(m: Master, n: nat)
    requires Inv(m) && 1 <= n <= MAX_NODES + 1
    ensures Inv(ExpireFrom(m, n))
    decreases MAX_NODES + 1 - n
  {
    if n <= MAX_NODES {
      ExpireOneKeepsInv(m, n);
      ExpireFromKeepsInv(ExpireOne(m, n), n + 1);
    }
  }

  /** The heartbeat check marks exactly the nodes that are late and changes nothing else about them. */
  lemma {:induction false} ExpireFromMarks(m: Master, n: nat, k: nat)
    requires Shaped(m) && n <= MAX_NODES + 1 && k <= MAX_NODES
    ensures var node := m.nodes[k];
            ExpireFrom(m, n).nodes[k] == if n <= k && Late(node, m.now) then node.(state := TimedOut) else node
    decreases MAX_NODES + 1 - n
  {
    if n <= MAX_NODES {
      ExpireFromMarks(ExpireOne(m, n), n + 1, k);
    }
  }

  /** Every automatic command in the log that is open belongs to a node below n. */
  ghost predicate StartedBelow(m: Master, n: nat) {
    forall k :: IsNode(k) ==> Separated(m.log, Begun(k)) && (Open(m.log, Begun(k)) ==> k < n)
  }

  lemma SendKeepsInv(m: Master, n: nat)
    requires Inv(m) && m.ready && IsNode(n) && StartedBelow(m, n)
    ensures Inv(Emit(m, Sent(START, n, true))) && StartedBelow(Emit(m, Sent(START, n, true)), n + 1)
  {
    var e := Sent(START, n, true);
    NoNodeChanges(m, e);
    ClockStep(m, Emit(m, e), e);
    OneMore(m.log, e, AllReady);
    OneMore(m.log, e, BootLate);
    forall k | IsNode(k)
      ensures Separated(m.log + [e], Begun(k)) && (Open(m.log + [e], Begun(k)) ==> k < n + 1)
    {
      OneMore(m.log, e, Begun(k));
    }
  }

  lemma AutoStartNext(m: Master, n: nat) returns (m': Master)
    requires Inv(m) && m.ready && m.hasSend && IsNode(n) && StartedBelow(m, n)
    ensures Inv(m') && m'.ready && m'.hasSend && StartedBelow(m', n + 1)
    ensures AutoStartFrom(m, n) == AutoStartFrom(m', n + 1)
  {
    if m.nodes[n].isAssigned && m.nodes[n].autoStart {
      SendKeepsInv(m, n);
      m' := Request(m, START, n, true);
    } else {
      m' := m;
    }
  }

  lemma {:induction false} AutoStartKeepsInv(m: Master, n: nat)
    requires Inv(m) && m.ready && m.hasSend && 1 <= n <= MAX_NODES + 1 && StartedBelow(m, n)
    ensures Inv(AutoStartFrom(m, n))
    decreases MAX_NODES + 1 - n
  {
    if n <= MAX_NODES {
      var m' := AutoStartNext(m, n);
      AutoStartKeepsInv(m', n + 1);
    }
  }

  /** The commands that follow a NETWORK_READY: one for each auto-start node from n on, and no other. */
  lemma {:induction false} AutoStartReaches(m: Master, n: nat, k: nat)
    requires Shaped(m) && m.hasSend && IsNode(k) && 1 <= n <= MAX_NODES + 1
    ensures Open(AutoStartFrom(m, n).log, Begun(k))
       <==> Open(m.log, Begun(k)) || (n <= k && m.nodes[k].isAssigned && m.nodes[k].autoStart)
    decreases MAX_NODES + 1 - n
  {
    if n <= MAX_NODES {
      OneMore(m.log, Sent(START, n, true), Begun(k));
      if m.nodes[n].isAssigned && m.nodes[n].autoStart {
        AutoStartReaches(Request(m, START, n, true), n + 1, k);
      } else {
        AutoStartReaches(m, n + 1, k);
      }
    }
  }

  lemma AnnounceKeepsInv(m: Master)
    requires Inv(m) && !m.ready
    ensures var m' := Emit(m.(ready := true), NetworkReady(m.now));
            Inv(m') && forall k :: IsNode(k) ==> !Open(m'.log, Begun(k))
  {
    var e := NetworkReady(m.now);
    NoNodeChanges(m.(ready := true), e);
    ClockStep(m, Emit(m.(ready := true), e), e);
    OneMore(m.log, e, AllReady);
    OneMore(m.log, e, BootLate);
    forall k | IsNode(k) ensures Separated(m.log + [e], Begun(k)) && !Open(m.log + [e], Begun(k)) {
      OneMore(m.log, e, Begun(k));
    }
  }

  lemma BootReportKeepsInv(m: Master, n: nat)
    requires Inv(m) && !m.bootReported
    ensures Inv(Emit(m.(bootReported := true), BootTimeout(n, m.now)))
  {
    var e := BootTimeout(n, m.now);
    NoNodeChanges(m.(bootReported := true), e);
    ClockStep(m, Emit(m.(bootReported := true), e), e);
    OneMore(m.log, e, AllReady);
    OneMore(m.log, e, BootLate);
    forall k | IsNode(k) ensures Separated(m.log + [e], Begun(k)) && (Open(m.log + [e], Begun(k)) ==> m.ready) {
      OneMore(m.log, e, Begun(k));
    }
  }

  lemma ConcludeKeepsInv(m: Master)
    requires Inv(m) && m.hasSend
    ensures Inv(Conclude(m))
  {
    if !MandatoryNodesReady(m.nodes) {
      if BootOverdue(m) {
        BootReportKeepsInv(m, FirstMissing(m.nodes, 1));
      }
    } else if !m.ready && AnyAssigned(m.nodes) {
      AnnounceKeepsInv(m);
      AutoStartKeepsInv(Emit(m.(ready := true), NetworkReady(m.now)), 1);
    }
  }

  lemma ProcessKeepsInv(m: Master, now: u32)
    requires Inv(m)
    ensures Inv(Process(m, now))
  {
    if m.running {
      ExpireFromKeepsInv(m.(now := now), 1);
      ConcludeKeepsInv(ExpireFrom(m.(now := now), 1));
    }
  }

  // --------------------------------------------------------------------- runs

  datatype Action =
    | DoConfigure(n: byte, mandatory: bool, autoStart: bool, timeoutMs: u16)
    | DoPolicy(startup: u32, bootTimeMs: u32)
    | DoStart(now: u32)
    | DoReceive(canId: u16, state: byte, dlc: byte, now: u32)
    | DoProcess(now: u32)
    | DoRequest(command: byte, n: byte)

  function Step(m: Master, a: Action): (m': Master)
    requires Inv(m)
    ensures Inv(m')
  {
    match a
    case DoConfigure(n, mandatory, autoStart, timeoutMs) =>
      ConfigureKeepsInv(m, n, mandatory, autoStart, timeoutMs);
      Configure(m, n, mandatory, autoStart, timeoutMs).0
    case DoPolicy(startup, bootTimeMs) => m.(startup := startup, bootTimeMs := bootTimeMs)
    case DoStart(now) => StartKeepsInv(m, now); StartSupervision(m, now).0
    case DoReceive(canId, state, dlc, now) =>
      ReceiveKeepsInv(m, canId, state, dlc, now);
      Receive(m, canId, state, dlc, now)
    case DoProcess(now) => ProcessKeepsInv(m, now); Process(m, now)
    case DoRequest(command, n) => RequestKeepsInv(m, command, n); Request(m, command, n, false)
  }

  function Run(m: Master, actions: seq<Action>): (m': Master)
    requires Inv(m)
    ensures Inv(m')
    decreases |actions|
  {
    if actions == [] then m else Run(Step(m, actions[0]), actions[1..])
  }

  /** In every run, a node is assigned if the log says so, and its kept time is when it was last heard. */
  lemma KeptTimeIsLastHeard(masterId: byte, hasSend: bool, actions: seq<Action>, n: nat)
    requires IsNode(n)
    ensures var m := Run(Init(masterId, hasSend), actions);
            && (m.nodes[n].isAssigned <==> Configured(n) in m.log)
            && m.nodes[n].lastMs == LastHeard(m.log, n)
  {
  }

  /**
   * Supervision. In every run, between two heartbeat timeouts of a node there is a valid heartbeat or
   * boot-up message of that node, a configuration of it, or a start of supervision.
   */
  lemma TimeoutsAreSeparated(masterId: byte, hasSend: bool, actions: seq<Action>, n: nat, i: nat, j: nat)
    requires n <= MAX_NODES
    requires var log := Run(Init(masterId, hasSend), actions).log;
             i < j < |log| && Matches(log[i], Overdue(n)) && Matches(log[j], Overdue(n))
    ensures var log := Run(Init(masterId, hasSend), actions).log;
            exists k :: i < k < j && (log[k].Started? || log[k] == Configured(n) || ValidState(log[k], n))
  {
    var m := Run(Init(masterId, hasSend), actions);
    assert NodeInv(m.nodes[n], m.log, n);
    SeparatedMeansCleared(m.log, Overdue(n), i, j);
  }

  /**
   * Once per start. In every run, two NETWORK_READY events, two BOOT_TIMEOUT events, or two START
   * commands the master sends to one node of its own accord, have a start of supervision between them.
   */
  lemma OncePerStart(masterId: byte, hasSend: bool, actions: seq<Action>, key: Key, i: nat, j: nat)
    requires key.AllReady? || key.BootLate? || (key.Begun? && IsNode(key.n))
    requires var log := Run(Init(masterId, hasSend), actions).log;
             i < j < |log| && Matches(log[i], key) && Matches(log[j], key)
    ensures var log := Run(Init(masterId, hasSend), actions).log;
            exists k :: i < k < j && log[k].Started?
  {
    SeparatedMeansCleared(Run(Init(masterId, hasSend), actions).log, key, i, j);
  }

  /**
   * By the log, the node has reported a valid state since supervision started and since it was configured, has
   * not timed out since, and has been heard of, with a valid state or not, within its timeout.
   */
  ghost predicate Present(node: Node, log: seq<Entry>, n: nat, now: u32) {
    Open(log, Alive(n)) && !Open(log, Overdue(n)) && !Silent(log, n, node.timeoutMs, now)
  }

  predicate Required(node: Node) {
    node.isAssigned && node.mandatory
  }

  ghost predicate AllPresent(m: Master, now: u32)
    requires Shaped(m)
  {
    forall n :: 1 <= n < |m.nodes| && Required(m.nodes[n]) ==> Present(m.nodes[n], m.log, n, now)
  }

  /** The first mandatory node that is not there. */
  ghost predicate FirstAbsent(m: Master, now: u32, n: nat)
    requires Shaped(m)
  {
    && IsNode(n) && Required(m.nodes[n]) && !Present(m.nodes[n], m.log, n, now)
    && forall k :: 1 <= k < n && Required(m.nodes[k]) ==> Present(m.nodes[k], m.log, k, now)
  }

  lemma PresentIsNotMissing(node: Node, log: seq<Entry>, n: nat, now: u32)
    requires NodeInv(node, log, n) && node.lastMs == LastHeard(log, n)
    ensures !Missing(if Late(node, now) then node.(state := TimedOut) else node)
       <==> (Required(node) ==> Present(node, log, n, now))
  {
  }

  lemma ExpireKeepsAssignments(m: Master, now: u32)
    requires Shaped(m)
    ensures AnyAssigned(ExpireFrom(m.(now := now), 1).nodes) <==> AnyAssigned(m.nodes)
  {
    var x := ExpireFrom(m.(now := now), 1);
    forall k | 0 <= k <= MAX_NODES ensures x.nodes[k].isAssigned == m.nodes[k].isAssigned {
      ExpireFromMarks(m.(now := now), 1, k);
    }
  }

  lemma ExpireFindsOne(m: Master, now: u32, n: nat)
    requires Shaped(m) && IsNode(n) && NodeInv(m.nodes[n], m.log, n) && m.nodes[n].lastMs == LastHeard(m.log, n)
    ensures !Missing(ExpireFrom(m.(now := now), 1).nodes[n])
       <==> (Required(m.nodes[n]) ==> Present(m.nodes[n], m.log, n, now))
  {
    ExpireFromMarks(m.(now := now), 1, n);
    PresentIsNotMissing(m.nodes[n], m.log, n, now);
  }

  /** The nodes found missing are the required ones that are not present, `nodes` being what the check left. */
  lemma MissingAreAbsent(m: Master, now: u32, nodes: seq<Node>)
    requires Shaped(m) && |nodes| == |m.nodes|
    requires forall n :: 1 <= n < |nodes| ==>
               (!Missing(nodes[n]) <==> (Required(m.nodes[n]) ==> Present(m.nodes[n], m.log, n, now)))
    ensures MandatoryNodesReady(nodes) <==> AllPresent(m, now)
    ensures !MandatoryNodesReady(nodes) ==> FirstAbsent(m, now, FirstMissing(nodes, 1))
  {
  }

  lemma ExpireFindsMissing(m: Master, now: u32)
    requires Shaped(m) && NodesInv(m) && ClockInv(m)
    ensures var nodes := ExpireFrom(m.(now := now), 1).nodes;
            && (MandatoryNodesReady(nodes) <==> AllPresent(m, now))
            && (!MandatoryNodesReady(nodes) ==> FirstAbsent(m, now, FirstMissing(nodes, 1)))
  {
    forall n | 1 <= n <= MAX_NODES
      ensures !Missing(ExpireFrom(m.(now := now), 1).nodes[n])
         <==> (Required(m.nodes[n]) ==> Present(m.nodes[n], m.log, n, now))
    {
      ExpireFindsOne(m, now, n);
    }
    MissingAreAbsent(m, now, ExpireFrom(m.(now := now), 1).nodes);
  }

  /**
   * Readiness. In every reachable state, processing announces NETWORK_READY exactly when it has not been
   * announced since the start, some node is assigned, and every mandatory node has reported a valid state
   * since the start and since its configuration and has been heard of, if only with a byte that is no state,
   * within its heartbeat timeout.
   */
  lemma NetworkReadyExactly(m: Master, now: u32)
    requires Inv(m)
    ensures !Open(m.log, AllReady) && Open(Process(m, now).log, AllReady)
       <==> m.running && !Open(m.log, AllReady) && AnyAssigned(m.nodes) && AllPresent(m, now)
  {
    ProcessKeepsInv(m, now);
    if m.running {
      ExpireFindsMissing(m, now);
      ExpireKeepsAssignments(m, now);
    }
  }

  /** When the node last reported a valid state; 0 before. */
  ghost function LastValid(log: seq<Entry>, n: nat): u32 {
    if log == [] then 0
    else if ValidState(log[|log| - 1], n) then log[|log| - 1].at
    else LastValid(log[..|log| - 1], n)
  }

  /** A byte of the node that is no state has come in since its last valid state. */
  ghost predicate Garbled(log: seq<Entry>, n: nat) {
    log != [] &&
    var e := log[|log| - 1];
    (e.InvalidFrame? && e.node == n) || (!ValidState(e, n) && Garbled(log[..|log| - 1], n))
  }

  /** Nothing but a byte that is no state comes between a node's last valid state and its last sign of life. */
  lemma {:induction false} UngarbledIsValid(log: seq<Entry>, n: nat)
    requires Open(log, Alive(n)) && !Garbled(log, n)
    ensures LastHeard(log, n) == LastValid(log, n)
  {
    if !ValidState(log[|log| - 1], n) {
      UngarbledIsValid(log[..|log| - 1], n);
    }
  }

  /** `now - x` within the timeout for every `now` for which `now - y` is: exactly if the two are the same instant. */
  lemma SameWindow(x: u32, y: u32, timeoutMs: u16)
    ensures (forall now: u32 :: Sub32(now, y) <= timeoutMs ==> Sub32(now, x) <= timeoutMs) <==> x == y
  {
    if forall now: u32 :: Sub32(now, y) <= timeoutMs ==> Sub32(now, x) <= timeoutMs {
      var end := Add32(y, timeoutMs);
      assert Sub32(end, y) == timeoutMs;
      assert Sub32(y, y) == 0;
      assert Sub32(end, x) <= timeoutMs && Sub32(y, x) <= timeoutMs;
    }
  }

  /**
   * Freshness. For a node that is up and supervised, being present means that its last valid state, and not
   * just its last message, is within its timeout, at whatever instant one looks, exactly if the two came at
   * the same instant; and they did unless a byte that is no state has come in since the last valid state.
   */
  lemma PresentIsFreshExactly(m: Master, n: nat)
    requires Inv(m) && IsNode(n) && m.nodes[n].isAssigned && m.nodes[n].timeoutMs != 0
    requires Open(m.log, Alive(n)) && !Open(m.log, Overdue(n))
    ensures (forall now: u32 :: Present(m.nodes[n], m.log, n, now) ==>
               Sub32(now, LastValid(m.log, n)) <= m.nodes[n].timeoutMs)
            <==> LastHeard(m.log, n) == LastValid(m.log, n)
    ensures !Garbled(m.log, n) ==> LastHeard(m.log, n) == LastValid(m.log, n)
  {
    SameWindow(LastValid(m.log, n), LastHeard(m.log, n), m.nodes[n].timeoutMs);
    assert forall now: u32 :: Present(m.nodes[n], m.log, n, now)
                          <==> Sub32(now, LastHeard(m.log, n)) <= m.nodes[n].timeoutMs;
    if !Garbled(m.log, n) {
      UngarbledIsValid(m.log, n);
    }
  }

  /** The last valid state of every required node is within its timeout. */
  ghost predicate AllFresh(m: Master, now: u32)
    requires Shaped(m)
  {
    forall n :: 1 <= n < |m.nodes| && Required(m.nodes[n]) && m.nodes[n].timeoutMs != 0 ==>
      Sub32(now, LastValid(m.log, n)) <= m.nodes[n].timeoutMs
  }

  ghost predicate NoneGarbled(m: Master)
    requires Shaped(m)
  {
    forall n :: 1 <= n < |m.nodes| && Required(m.nodes[n]) ==> !Garbled(m.log, n)
  }

  /** So readiness, when it is announced with no required node garbled, finds every one of them fresh. */
  lemma ReadyIsFresh(m: Master, now: u32)
    requires Inv(m) && NoneGarbled(m)
    requires !Open(m.log, AllReady) && Open(Process(m, now).log, AllReady)
    ensures AllPresent(m, now) && AllFresh(m, now)
  {
    NetworkReadyExactly(m, now);
    forall n | 1 <= n < |m.nodes| && Required(m.nodes[n]) && m.nodes[n].timeoutMs != 0
      ensures Sub32(now, LastValid(m.log, n)) <= m.nodes[n].timeoutMs
    {
      PresentIsFreshExactly(m, n);
    }
  }

  /** A byte that is no state renews the timeout of a node and changes nothing else about its standing. */
  lemma InvalidByteRenews(m: Master, n: nat, state: byte, now: u32, later: u32)
    requires Inv(m) && m.running && IsNode(n) && m.nodes[n].isAssigned && Reported(state).None?
    ensures var m' := Receive(m, HEARTBEAT_BASE + n, state, 1, now);
            var timeoutMs := m.nodes[n].timeoutMs;
            Present(m'.nodes[n], m'.log, n, later)
            <==> Open(m.log, Alive(n)) && !Open(m.log, Overdue(n)) && (timeoutMs == 0 || Sub32(later, now) <= timeoutMs)
  {
    var e := InvalidFrame(n, state, now);
    OneMore(m.log, e, Alive(n));
    OneMore(m.log, e, Overdue(n));
    LastHeardMore(m.log, e, n);
  }

  ghost predicate ReadyThoughStale(actions: seq<Action>, n: nat, now: u32) {
    var m := Run(Init(0, true), actions);
    && IsNode(n) && Required(m.nodes[n]) && m.nodes[n].timeoutMs != 0
    && Sub32(now, LastValid(m.log, n)) > m.nodes[n].timeoutMs
    && !m.ready && Process(m, now).ready
  }

  /** The master of this run before and after each byte from node 1. */
  ghost function Listening(now: u32, lastMs: u32, state: NodeState, log: seq<Entry>): Master {
    var m := Init(0, true);
    m.(startup := 1, running := true, now := now, nodes := m.nodes[1 := Node(true, true, false, 100, lastMs, state)],
       log := log)
  }

  lemma StaleBegins()
    ensures var m1 := Configure(Init(0, true), 1, true, false, 100).0;
            StartSupervision(m1.(startup := 1), 0).0 == Listening(0, 0, WaitingBootup, [Configured(1), Started(0)])
  {
    var m1 := Configure(Init(0, true), 1, true, false, 100).0;
    assert m1.nodes == Init(0, true).nodes[1 := Node(true, true, false, 100, 0, WaitingBootup)];
    assert m1.log == [Configured(1)];
    assert AllWaiting(m1.nodes, 0) == m1.nodes;
  }

  lemma StaleHears(now: u32, lastMs: u32, s: NodeState, log: seq<Entry>, state: byte, at: u32)
    ensures Receive(Listening(now, lastMs, s, log), 0x701, state, 1, at)
         == Listening(at, at, if Reported(state).Some? then Reported(state).value else s,
                      log + [if Reported(state).None? then InvalidFrame(1, state, at)
                             else if state == 0 then Bootup(1, at) else Heartbeat(1, state, at)])
  {
    var m, nodes := Listening(now, lastMs, s, log), Init(0, true).nodes;
    var m' := Receive(m, 0x701, state, 1, at);
    assert nodes[1 := m.nodes[1]][1 := m'.nodes[1]] == nodes[1 := m'.nodes[1]];
  }

  lemma RunFirst(m: Master, a: Action, rest: seq<Action>)
    requires Inv(m)
    ensures Run(m, [a] + rest) == Run(Step(m, a), rest)
  {
    assert ([a] + rest)[1..] == rest;
  }

  /** Node 1 was valid at 10, sent a byte that is no state at 100, and nothing since. */
  ghost function Stale(): Master {
    Listening(100, 100, PreOp, [Configured(1), Started(0), Heartbeat(1, 0x7F, 10)] + [InvalidFrame(1, 0x33, 100)])
  }

  lemma StaleIsReached() returns (actions: seq<Action>)
    ensures Run(Init(0, true), actions) == Stale()
  {
    var heard := [DoReceive(0x701, 0x7F, 1, 10), DoReceive(0x701, 0x33, 1, 100)];
    var m0 := Init(0, true);
    StaleBegins();
    var m1 := Step(m0, DoConfigure(1, true, false, 100));
    var m2 := Step(m1, DoPolicy(1, DEFAULT_BOOT_TIME_MS));
    var m3 := Step(m2, DoStart(0));
    RunFirst(m2, DoStart(0), heard);
    RunFirst(m1, DoPolicy(1, DEFAULT_BOOT_TIME_MS), [DoStart(0)] + heard);
    RunFirst(m0, DoConfigure(1, true, false, 100), [DoPolicy(1, DEFAULT_BOOT_TIME_MS)] + ([DoStart(0)] + heard));
    StaleListens(m3);
    actions := [DoConfigure(1, true, false, 100)] + ([DoPolicy(1, DEFAULT_BOOT_TIME_MS)] + ([DoStart(0)] + heard));
  }

  lemma StaleListens(m: Master)
    requires Inv(m) && m == Listening(0, 0, WaitingBootup, [Configured(1), Started(0)])
    ensures Run(m, [DoReceive(0x701, 0x7F, 1, 10), DoReceive(0x701, 0x33, 1, 100)]) == Stale()
  {
    var log := [Configured(1), Started(0)];
    StaleHears(0, 0, WaitingBootup, log, 0x7F, 10);
    StaleHears(10, 10, PreOp, log + [Heartbeat(1, 0x7F, 10)], 0x33, 100);
    var m1 := Step(m, DoReceive(0x701, 0x7F, 1, 10));
    RunFirst(m, DoReceive(0x701, 0x7F, 1, 10), [DoReceive(0x701, 0x33, 1, 100)]);
    RunFirst(m1, DoReceive(0x701, 0x33, 1, 100), []);
    assert log + [Heartbeat(1, 0x7F, 10)] == [Configured(1), Started(0), Heartbeat(1, 0x7F, 10)];
    assert [DoReceive(0x701, 0x33, 1, 100)] + [] == [DoReceive(0x701, 0x33, 1, 100)];
    assert [DoReceive(0x701, 0x7F, 1, 10)] + [DoReceive(0x701, 0x33, 1, 100)]
        == [DoReceive(0x701, 0x7F, 1, 10), DoReceive(0x701, 0x33, 1, 100)];
  }

  /** A lone required node that is up and not late brings readiness. */
  lemma LoneNodeIsEnough(m: Master, now: u32, n: nat)
    requires Inv(m) && m.running && !m.ready && IsNode(n) && m.nodes[n].isAssigned
    requires Up(m.nodes[n].state) && !Late(m.nodes[n], now)
    requires forall k :: 1 <= k < |m.nodes| && k != n ==> !Required(m.nodes[k])
    ensures Process(m, now).ready
  {
    assert NodeInv(m.nodes[n], m.log, n) && m.nodes[n].lastMs == LastHeard(m.log, n);
    assert AllPresent(m, now);
    ExpireFindsMissing(m, now);
    ExpireKeepsAssignments(m, now);
  }

  lemma StaleFields()
    ensures var m := Stale();
            && Shaped(m) && m.running && !m.ready && m.nodes[1] == Node(true, true, false, 100, 100, PreOp)
            && (forall k :: 1 <= k < |m.nodes| && k != 1 ==> !Required(m.nodes[k]))
    ensures LastValid(Stale().log, 1) == 10
  {
    var log := Stale().log;
    var before := [Configured(1), Started(0), Heartbeat(1, 0x7F, 10)];
    assert log[..|log| - 1] == before && before[|before| - 1] == Heartbeat(1, 0x7F, 10);
  }

  /** So readiness can be announced although a required node's last valid state is older than its timeout. */
  lemma StaleNodeCanBeReady()
    ensures exists actions: seq<Action> :: ReadyThoughStale(actions, 1, 150)
  {
    var actions := StaleIsReached();
    StaleFields();
    LoneNodeIsEnough(Run(Init(0, true), actions), 150, 1);
    assert ReadyThoughStale(actions, 1, 150);
  }

  /**
   * The boot timeout. In every reachable state, processing reports BOOT_TIMEOUT exactly when it has not
   * been reported since the start, a boot time is set and over, and some mandatory node is not there; the
   * report names the lowest such node.
   */
  lemma BootTimeoutExactly(m: Master, now: u32)
    requires Inv(m)
    ensures var log := Process(m, now).log;
            && (!Open(m.log, BootLate) && Open(log, BootLate)
                <==> && m.running && !Open(m.log, BootLate) && !AllPresent(m, now)
                     && m.bootTimeMs != 0 && Sub32(now, m.startedAt) > m.bootTimeMs)
            && (!Open(m.log, BootLate) && Open(log, BootLate) ==>
                  log != [] && log[|log| - 1].BootTimeout? && FirstAbsent(m, now, log[|log| - 1].node))
  {
    ProcessKeepsInv(m, now);
    if m.running {
      ExpireFindsMissing(m, now);
      var x := ExpireFrom(m.(now := now), 1);
      ConcludeReportsBoot(x);
    }
  }

  lemma ConcludeReportsBoot(x: Master)
    requires Shaped(x) && x.hasSend
    ensures var x' := Conclude(x);
            && (x'.bootReported <==> x.bootReported || (!MandatoryNodesReady(x.nodes) && BootOverdue(x)))
            && (x'.bootReported && !x.bootReported ==> x'.log == x.log + [BootTimeout(FirstMissing(x.nodes, 1), x.now)])
  {
  }

  /** When it announces readiness and the policy does not forbid it, exactly the auto-start nodes are started. */
  lemma AutoStartExactly(m: Master, now: u32, k: nat)
    requires Inv(m) && IsNode(k) && m.running && !m.ready && Process(m, now).ready
    ensures Open(Process(m, now).log, Begun(k))
       <==> !ApplicationStarts(m.startup) && m.nodes[k].isAssigned && m.nodes[k].autoStart
  {
    var x := ExpireFrom(m.(now := now), 1);
    ExpireFromKeepsInv(m.(now := now), 1);
    ExpireFromMarks(m.(now := now), 1, k);
    AnnounceKeepsInv(x);
    if !ApplicationStarts(m.startup) {
      AutoStartReaches(Emit(x.(ready := true), NetworkReady(x.now)), 1, k);
    }
  }
}
