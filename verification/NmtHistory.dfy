/**
 * The NMT master read off its history: which nodes are marked overdue, what state each is taken to be in, and how
 * each was configured.
 */
module NmtHistory {
  import opened Words
  import opened NmtMaster

  // ------------------------------------------------------------- supervision

  /** The check of node n turns up node k: it is that node, late, and not marked yet. */
  predicate FoundLate(m: Master, n: nat, k: nat)
    requires Shaped(m) && IsNode(k)
  {
    n <= k && Late(m.nodes[k], m.now) && m.nodes[k].state != TimedOut
  }

  lemma ExpireOneOpens(m: Master, n: nat, k: nat)
    requires Shaped(m) && IsNode(k) && IsNode(n)
    ensures var m' := ExpireOne(m, n);
            && Shaped(m')
            && (Open(m'.log, Overdue(k)) <==> Open(m.log, Overdue(k)) || (k == n && FoundLate(m, n, k)))
            && (FoundLate(m', n + 1, k) <==> FoundLate(m, n, k) && k != n)
  {
    OneMore(m.log, HeartbeatTimeout(n, m.now), Overdue(k));
  }

  lemma {:induction false} ExpireOpens(m: Master, n: nat, k: nat)
    requires Shaped(m) && IsNode(k) && 1 <= n <= MAX_NODES + 1
    ensures Open(ExpireFrom(m, n).log, Overdue(k)) <==> Open(m.log, Overdue(k)) || FoundLate(m, n, k)
    decreases MAX_NODES + 1 - n
  {
    hide ExpireOne;
    hide Open;
    if n <= MAX_NODES {
      ExpireOneOpens(m, n, k);
      ExpireOpens(ExpireOne(m, n), n + 1, k);
    }
  }

  lemma {:induction false} AutoStartKeepsOverdue(m: Master, n: nat, k: nat)
    requires Shaped(m) && 1 <= n <= MAX_NODES + 1
    ensures Open(AutoStartFrom(m, n).log, Overdue(k)) <==> Open(m.log, Overdue(k))
    decreases MAX_NODES + 1 - n
  {
    if n <= MAX_NODES {
      OneMore(m.log, Sent(START, n, true), Overdue(k));
      if m.nodes[n].isAssigned && m.nodes[n].autoStart {
        AutoStartKeepsOverdue(Request(m, START, n, true), n + 1, k);
      } else {
        AutoStartKeepsOverdue(m, n + 1, k);
      }
    }
  }

  lemma ConcludeKeepsOverdue(m: Master, k: nat)
    requires Shaped(m)
    ensures Open(Conclude(m).log, Overdue(k)) <==> Open(m.log, Overdue(k))
  {
    if !MandatoryNodesReady(m.nodes) {
      OneMore(m.log, BootTimeout(FirstMissing(m.nodes, 1), m.now), Overdue(k));
    } else {
      OneMore(m.log, NetworkReady(m.now), Overdue(k));
      AutoStartKeepsOverdue(Emit(m.(ready := true), NetworkReady(m.now)), 1, k);
    }
  }

  lemma LateBySilence(m: Master, now: u32, n: nat)
    requires Inv(m) && IsNode(n)
    ensures Shaped(m)
    ensures FoundLate(m.(now := now), 1, n)
       <==> Configured(n) in m.log && Silent(m.log, n, m.nodes[n].timeoutMs, now) && !Open(m.log, Overdue(n))
  {
    assert NodeInv(m.nodes[n], m.log, n);
  }

  /**
   * Supervision of every node, mandatory or not. In every reachable state of a running master, processing leaves
   * a node marked overdue exactly if it was, or if it is configured and by the log has been silent for longer
   * than its timeout.
   */
  lemma OverdueExactly(m: Master, now: u32, n: nat)
    requires Inv(m) && m.running && IsNode(n)
    ensures Open(Process(m, now).log, Overdue(n))
       <==> || Open(m.log, Overdue(n))
            || (Configured(n) in m.log && Silent(m.log, n, m.nodes[n].timeoutMs, now))
  {
    LateBySilence(m, now, n);
    hide Inv;
    hide Open;
    hide ExpireFrom;
    hide Conclude;
    hide Silent;
    hide FoundLate;
    ExpireOpens(m.(now := now), 1, n);
    ConcludeKeepsOverdue(ExpireFrom(m.(now := now), 1), n);
  }

  // ------------------------------------------------------------- node states

  /** The state a node is in, by the log: waiting since its configuration or the start, or what was heard last. */
  ghost function StateIn(log: seq<Entry>, n: nat): NodeState {
    if log == [] then Unassigned
    else
      var before, e := log[..|log| - 1], log[|log| - 1];
      Turned(StateIn(before, n), Configured(n) in before, e, n)
  }

  /** What one entry does to the state of a node. */
  ghost function Turned(s: NodeState, known: bool, e: Entry, n: nat): NodeState {
    match e
    case Configured(k) => if k == n then WaitingBootup else s
    case Started(_) => if known then WaitingBootup else s
    case HeartbeatTimeout(k, _) => if k == n then TimedOut else s
    case Bootup(k, _) => if k == n then PreOp else s
    case Heartbeat(k, state, _) =>
      if k != n then s else if state == 5 then Operational else if state == 4 then Stopped else PreOp
    case _ => s
  }

  ghost predicate StateInv(m: Master) {
    Shaped(m) && forall n :: IsNode(n) ==> m.nodes[n].state == StateIn(m.log, n)
  }

  lemma StateStep(m: Master, m': Master, e: Entry)
    requires Shaped(m) && Shaped(m') && ClockInv(m) && StateInv(m) && m'.log == m.log + [e]
    requires forall n :: IsNode(n) ==>
               m'.nodes[n].state == Turned(m.nodes[n].state, m.nodes[n].isAssigned, e, n)
    ensures StateInv(m')
  {
    assert m'.log[..|m'.log| - 1] == m.log && m'.log[|m'.log| - 1] == e;
    forall n | IsNode(n) ensures m'.nodes[n].state == StateIn(m'.log, n) {
      assert m.nodes[n].isAssigned <==> Configured(n) in m.log;
    }
  }

  /** An entry about one node, with that node's new state. */
  lemma OneStateTurns(m: Master, m': Master, n: nat, e: Entry)
    requires Shaped(m) && Shaped(m') && ClockInv(m) && StateInv(m) && m'.log == m.log + [e] && IsNode(n)
    requires m'.nodes == m.nodes[n := m'.nodes[n]]
    requires (e.Configured? || e.HeartbeatTimeout? || e.Bootup? || e.Heartbeat? || e.InvalidFrame?) && e.node == n
    requires m'.nodes[n].state == Turned(m.nodes[n].state, m.nodes[n].isAssigned, e, n)
    ensures StateInv(m')
  {
    StateStep(m, m', e);
  }

  /** An entry about no node in particular. */
  lemma NoStateTurns(m: Master, m': Master, e: Entry)
    requires Shaped(m) && ClockInv(m) && StateInv(m) && m'.log == m.log + [e] && m'.nodes == m.nodes
    requires e.BootTimeout? || e.NetworkReady? || e.InvalidFrame? || e.Sent?
    ensures StateInv(m')
  {
    StateStep(m, m', e);
  }

  lemma ConfigureKeepsStates(m: Master, n: byte, mandatory: bool, autoStart: bool, timeoutMs: u16)
    requires Inv(m) && StateInv(m)
    ensures StateInv(Configure(m, n, mandatory, autoStart, timeoutMs).0)
  {
    if IsNode(n) && n != m.masterId {
      OneStateTurns(m, Configure(m, n, mandatory, autoStart, timeoutMs).0, n, Configured(n));
    }
  }

  lemma StartKeepsStates(m: Master, now: u32)
    requires Inv(m) && StateInv(m)
    ensures StateInv(StartSupervision(m, now).0)
  {
    var m' := StartSupervision(m, now).0;
    if m'.log != m.log {
      StateStep(m, m', Started(now));
    }
  }

  lemma HeardTurnsState(m: Master, n: nat, state: byte)
    requires Shaped(m) && ClockInv(m) && StateInv(m) && IsNode(n)
    ensures StateInv(HeardFrom(m, n, state))
  {
    var m' := HeardFrom(m, n, state);
    OneStateTurns(m, m', n, if state == 0 then Bootup(n, m.now)
                            else if state in {4, 5, 0x7F} then Heartbeat(n, state, m.now)
                            else InvalidFrame(n, state, m.now));
  }

  lemma ReceiveKeepsStates(m: Master, canId: u16, state: byte, dlc: byte, now: u32)
    requires Inv(m) && StateInv(m)
    ensures StateInv(Receive(m, canId, state, dlc, now))
  {
    var m1 := m.(now := now);
    if m.running {
      if dlc != 1 || canId < HEARTBEAT_BASE || canId > HEARTBEAT_BASE + MAX_NODES {
        NoStateTurns(m1, Receive(m, canId, state, dlc, now), InvalidFrame(0, 0, now));
      } else if m.nodes[canId - HEARTBEAT_BASE].isAssigned {
        HeardTurnsState(m1, canId - HEARTBEAT_BASE, state);
      }
    }
  }

  lemma ExpireOneKeepsStates(m: Master, n: nat)
    requires Shaped(m) && ClockInv(m) && StateInv(m) && IsNode(n)
    ensures StateInv(ExpireOne(m, n))
  {
    if ExpireOne(m, n) != m {
      OneStateTurns(m, ExpireOne(m, n), n, HeartbeatTimeout(n, m.now));
    }
  }

  lemma {:induction false} ExpireKeepsStates(m: Master, n: nat)
    requires Inv(m) && StateInv(m) && 1 <= n <= MAX_NODES + 1
    ensures StateInv(ExpireFrom(m, n))
    decreases MAX_NODES + 1 - n
  {
    hide ExpireOne;
    hide StateInv;
    if n <= MAX_NODES {
      ExpireOneKeepsInv(m, n);
      ExpireOneKeepsStates(m, n);
      ExpireKeepsStates(ExpireOne(m, n), n + 1);
    }
  }

  lemma CommandTurnsNothing(m: Master, n: nat, k: nat)
    ensures StateIn(Request(m, START, n, true).log, k) == StateIn(m.log, k)
  {
    assert (m.log + [Sent(START, n, true)])[..|m.log|] == m.log;
  }

  lemma {:induction false} AutoStartKeepsStates(m: Master, n: nat, k: nat)
    requires Shaped(m) && 1 <= n <= MAX_NODES + 1
    ensures StateIn(AutoStartFrom(m, n).log, k) == StateIn(m.log, k)
    decreases MAX_NODES + 1 - n
  {
    hide StateIn;
    if n <= MAX_NODES {
      CommandTurnsNothing(m, n, k);
      if m.nodes[n].isAssigned && m.nodes[n].autoStart {
        AutoStartKeepsStates(Request(m, START, n, true), n + 1, k);
      } else {
        AutoStartKeepsStates(m, n + 1, k);
      }
    }
  }

  lemma ReadyKeepsStates(m: Master)
    requires Shaped(m) && ClockInv(m) && StateInv(m)
    ensures StateInv(ReportReady(m))
  {
    var m' := Emit(m.(ready := true), NetworkReady(m.now));
    NoStateTurns(m, m', NetworkReady(m.now));
    forall k | IsNode(k) ensures ReportReady(m).nodes[k].state == StateIn(ReportReady(m).log, k) {
      AutoStartKeepsStates(m', 1, k);
    }
  }

  lemma ConcludeKeepsStates(m: Master)
    requires Shaped(m) && ClockInv(m) && StateInv(m)
    ensures StateInv(Conclude(m))
  {
    hide StateInv;
    if !MandatoryNodesReady(m.nodes) {
      if BootOverdue(m) {
        var e := BootTimeout(FirstMissing(m.nodes, 1), m.now);
        NoStateTurns(m, Emit(m.(bootReported := true), e), e);
      }
    } else if !m.ready && AnyAssigned(m.nodes) {
      ReadyKeepsStates(m);
    }
  }

  lemma ProcessKeepsStates(m: Master, now: u32)
    requires Inv(m) && StateInv(m)
    ensures StateInv(Process(m, now))
  {
    if m.running {
      ExpireKeepsStates(m.(now := now), 1);
      ExpireFromKeepsInv(m.(now := now), 1);
      ConcludeKeepsStates(ExpireFrom(m.(now := now), 1));
    }
  }

  lemma RequestKeepsStates(m: Master, command: byte, n: nat)
    requires Inv(m) && StateInv(m)
    ensures StateInv(Request(m, command, n, false))
  {
    var m' := Request(m, command, n, false);
    if m'.log != m.log {
      NoStateTurns(m, m', Sent(command, n, false));
    }
  }

  lemma StepKeepsStates(m: Master, a: Action)
    requires Inv(m) && StateInv(m)
    ensures StateInv(Step(m, a))
  {
    match a {
      case DoConfigure(n, mandatory, autoStart, timeoutMs) =>
        ConfigureKeepsStates(m, n, mandatory, autoStart, timeoutMs);
      case DoPolicy(startup, bootTimeMs) =>
      case DoStart(now) => StartKeepsStates(m, now);
      case DoReceive(canId, state, dlc, now) => ReceiveKeepsStates(m, canId, state, dlc, now);
      case DoProcess(now) => ProcessKeepsStates(m, now);
      case DoRequest(command, n) => RequestKeepsStates(m, command, n);
    }
  }

  lemma {:induction false} RunKeepsStates(m: Master, actions: seq<Action>)
    requires Inv(m) && StateInv(m)
    ensures StateInv(Run(m, actions))
    decreases |actions|
  {
    hide StateInv;
    if actions != [] {
      StepKeepsStates(m, actions[0]);
      RunKeepsStates(Step(m, actions[0]), actions[1..]);
    }
  }

  /** In every run the state kept for a node is the one last heard, or waited for, or lost, by the log. */
  lemma StateIsLastHeard(masterId: byte, hasSend: bool, actions: seq<Action>, n: nat)
    requires IsNode(n)
    ensures var m := Run(Init(masterId, hasSend), actions); m.nodes[n].state == StateIn(m.log, n)
  {
    RunKeepsStates(Init(masterId, hasSend), actions);
  }

  /** What a frame on the bus is logged as: by its identifier, its length and its one byte. */
  lemma FrameIsLogged(m: Master, canId: u16, state: byte, dlc: byte, now: u32)
    requires Inv(m) && m.running
    ensures var log, n := Receive(m, canId, state, dlc, now).log, canId - 0x700;
            log == m.log + (if dlc != 1 || !(0 <= n <= 127) then [InvalidFrame(0, 0, now)]
                            else if n == 0 || Configured(n) !in m.log then []
                            else if state == 0 then [Bootup(n, now)]
                            else if state in {4, 5, 127} then [Heartbeat(n, state, now)]
                            else [InvalidFrame(n, state, now)])
  {
  }

  /** The policy word: bit 0 makes the device master, bit 3 leaves starting the nodes to the application. */
  lemma PolicyBits(high: nat, b3: nat, b2: nat, b1: nat, b0: nat)
    requires b0 <= 1 && b1 <= 1 && b2 <= 1 && b3 <= 1 && 16 * high + 15 < TWO_32
    ensures var startup := 16 * high + 8 * b3 + 4 * b2 + 2 * b1 + b0;
            (IsMaster(startup) <==> b0 == 1) && (ApplicationStarts(startup) <==> b3 == 1)
  {
    LowBit(8 * high + 4 * b3 + 2 * b2 + b1, b0);
    LowBit(high, b3);
    UpperBits(2 * high + b3, 4 * b2 + 2 * b1 + b0);
  }

  lemma LowBit(rest: nat, bit: nat)
    requires bit <= 1
    ensures (2 * rest + bit) % 2 == bit
  {
  }

  lemma UpperBits(upper: nat, lower: nat)
    requires lower < 8
    ensures (8 * upper + lower) / 8 == upper
  {
  }

  /** Supervision starts exactly on a device that is master and can send; every assigned node is waited for anew. */
  lemma StartsExactly(m: Master, now: u32, n: nat)
    requires Inv(m) && IsNode(n)
    ensures var (m', started) := StartSupervision(m, now);
            && (started <==> m.hasSend && m.startup % 2 == 1)
            && m'.log == m.log + (if started then [Started(now)] else [])
            && (started ==> !m'.ready && !m'.bootReported && (Configured(n) in m.log ==> m'.nodes[n].lastMs == now))
            && (!started ==> m' == m)
  {
  }

  /** Commands go out to node 0 (all nodes) or 1 to 127: start, stop, pre-operational, reset, reset communication. */
  lemma CommandsAreSent(m: Master, command: byte, n: nat)
    ensures Request(m, command, n, false).log
         == m.log + (if m.hasSend && n <= 127 && command in {1, 2, 128, 129, 130} then [Sent(command, n, false)] else [])
  {
  }

  // ----------------------------------------------------------- configuration

  datatype Settings = Settings(isAssigned: bool, mandatory: bool, autoStart: bool, timeoutMs: u16)

  function SettingsOf(node: Node): Settings {
    Settings(node.isAssigned, node.mandatory, node.autoStart, node.timeoutMs)
  }

  /** What the last accepted configuration of a node asked for. */
  function LastSettings(masterId: byte, actions: seq<Action>, n: nat, before: Settings): Settings
    decreases |actions|
  {
    if actions == [] then before
    else
      var a := actions[0];
      var next := if a.DoConfigure? && a.n == n && n != masterId as nat && 1 <= n <= 127
                  then Settings(true, a.mandatory, a.autoStart, a.timeoutMs) else before;
      LastSettings(masterId, actions[1..], n, next)
  }

  lemma ConcludeKeepsNodes(m: Master)
    requires Shaped(m)
    ensures Conclude(m).nodes == m.nodes && Conclude(m).masterId == m.masterId
  {
  }

  lemma ProcessKeepsSettings(m: Master, now: u32, n: nat)
    requires Shaped(m) && n <= MAX_NODES
    ensures var m' := Process(m, now);
            Shaped(m') && SettingsOf(m'.nodes[n]) == SettingsOf(m.nodes[n]) && m'.masterId == m.masterId
  {
    hide Conclude;
    hide ExpireFrom;
    if m.running {
      ExpireFromMarks(m.(now := now), 1, n);
      ConcludeKeepsNodes(ExpireFrom(m.(now := now), 1));
    }
  }

  lemma ReceiveKeepsSettings(m: Master, canId: u16, state: byte, dlc: byte, now: u32, n: nat)
    requires Shaped(m) && n <= MAX_NODES
    ensures var m' := Receive(m, canId, state, dlc, now);
            Shaped(m') && SettingsOf(m'.nodes[n]) == SettingsOf(m.nodes[n]) && m'.masterId == m.masterId
  {
  }

  lemma StepSettles(m: Master, a: Action, n: nat)
    requires Inv(m) && n <= MAX_NODES
    ensures var m' := Step(m, a);
            && m'.masterId == m.masterId
            && SettingsOf(m'.nodes[n]) == LastSettings(m.masterId, [a], n, SettingsOf(m.nodes[n]))
  {
    match a {
      case DoReceive(canId, state, dlc, now) =>
        hide Receive;
        ReceiveKeepsSettings(m, canId, state, dlc, now, n);
      case DoProcess(now) =>
        hide Process;
        ProcessKeepsSettings(m, now, n);
      case _ =>
    }
  }

  lemma {:induction false} RunSettles(m: Master, actions: seq<Action>, n: nat)
    requires Inv(m) && n <= MAX_NODES
    ensures SettingsOf(Run(m, actions).nodes[n])
         == LastSettings(m.masterId, actions, n, SettingsOf(m.nodes[n]))
    decreases |actions|
  {
    hide Inv;
    if actions != [] {
      StepSettles(m, actions[0], n);
      RunSettles(Step(m, actions[0]), actions[1..], n);
    }
  }

  /** In every run a node is configured as the last accepted call asked, and not assigned without one. */
  lemma ConfiguredAsAsked(masterId: byte, hasSend: bool, actions: seq<Action>, n: nat)
    requires IsNode(n)
    ensures SettingsOf(Run(Init(masterId, hasSend), actions).nodes[n])
         == LastSettings(masterId, actions, n, Settings(false, false, false, 0))
  {
    RunSettles(Init(masterId, hasSend), actions, n);
  }

  /** Policy word and boot time as last set. */
  function LastPolicy(actions: seq<Action>, startup: u32, bootTimeMs: u32): (u32, u32)
    decreases |actions|
  {
    if actions == [] then (startup, bootTimeMs)
    else
      match actions[0]
      case DoPolicy(s, b) => LastPolicy(actions[1..], s, b)
      case _ => LastPolicy(actions[1..], startup, bootTimeMs)
  }

  lemma StepKeepsPolicy(m: Master, a: Action)
    requires Inv(m)
    ensures var m' := Step(m, a);
            (m'.startup, m'.bootTimeMs) == if a.DoPolicy? then (a.startup, a.bootTimeMs) else (m.startup, m.bootTimeMs)
  {
    if a.DoProcess? && m.running {
      ConcludeKeepsPolicy(ExpireFrom(m.(now := a.now), 1));
    }
  }

  lemma ConcludeKeepsPolicy(m: Master)
    requires Shaped(m)
    ensures Conclude(m).startup == m.startup && Conclude(m).bootTimeMs == m.bootTimeMs
  {
  }

  lemma {:induction false} RunKeepsPolicy(m: Master, actions: seq<Action>)
    requires Inv(m)
    ensures (Run(m, actions).startup, Run(m, actions).bootTimeMs) == LastPolicy(actions, m.startup, m.bootTimeMs)
    decreases |actions|
  {
    hide Inv;
    hide Step;
    if actions != [] {
      StepKeepsPolicy(m, actions[0]);
      RunKeepsPolicy(Step(m, actions[0]), actions[1..]);
    }
  }

  /** In every run policy and boot time are those last set; before, no policy and ten seconds. */
  lemma PolicyIsLastSet(masterId: byte, hasSend: bool, actions: seq<Action>)
    ensures var m := Run(Init(masterId, hasSend), actions);
            (m.startup, m.bootTimeMs) == LastPolicy(actions, 0, 10000)
  {
    RunKeepsPolicy(Init(masterId, hasSend), actions);
  }

  // -------------------------------------------------------------------- start

  /** When supervision was last started. */
  ghost function LastStart(log: seq<Entry>): Option<u32> {
    if log == [] then None
    else if log[|log| - 1].Started? then Some(log[|log| - 1].at)
    else LastStart(log[..|log| - 1])
  }

  ghost predicate StartedInv(m: Master) {
    && (m.running <==> LastStart(m.log).Some?)
    && (m.running ==> LastStart(m.log) == Some(m.startedAt))
  }

  lemma StartStays(log: seq<Entry>, e: Entry)
    requires !e.Started?
    ensures LastStart(log + [e]) == LastStart(log)
  {
    assert (log + [e])[..|log|] == log;
  }

  lemma {:induction false} ExpireKeepsStart(m: Master, n: nat)
    requires Shaped(m) && 1 <= n <= MAX_NODES + 1
    ensures LastStart(ExpireFrom(m, n).log) == LastStart(m.log)
    decreases MAX_NODES + 1 - n
  {
    hide LastStart;
    if n <= MAX_NODES {
      StartStays(m.log, HeartbeatTimeout(n, m.now));
      ExpireKeepsStart(ExpireOne(m, n), n + 1);
    }
  }

  lemma {:induction false} AutoStartKeepsStart(m: Master, n: nat)
    requires Shaped(m) && 1 <= n <= MAX_NODES + 1
    ensures LastStart(AutoStartFrom(m, n).log) == LastStart(m.log)
    decreases MAX_NODES + 1 - n
  {
    hide LastStart;
    if n <= MAX_NODES {
      StartStays(m.log, Sent(START, n, true));
      if m.nodes[n].isAssigned && m.nodes[n].autoStart {
        AutoStartKeepsStart(Request(m, START, n, true), n + 1);
      } else {
        AutoStartKeepsStart(m, n + 1);
      }
    }
  }

  lemma ConcludeKeepsStart(m: Master)
    requires Shaped(m)
    ensures LastStart(Conclude(m).log) == LastStart(m.log)
    ensures Conclude(m).running == m.running && Conclude(m).startedAt == m.startedAt
  {
    hide LastStart;
    if !MandatoryNodesReady(m.nodes) {
      StartStays(m.log, BootTimeout(FirstMissing(m.nodes, 1), m.now));
    } else {
      StartStays(m.log, NetworkReady(m.now));
      AutoStartKeepsStart(Emit(m.(ready := true), NetworkReady(m.now)), 1);
    }
  }

  lemma ConfigureKeepsStarted(m: Master, n: byte, mandatory: bool, autoStart: bool, timeoutMs: u16)
    requires Shaped(m) && StartedInv(m)
    ensures StartedInv(Configure(m, n, mandatory, autoStart, timeoutMs).0)
  {
    hide LastStart;
    StartStays(m.log, Configured(n));
  }

  lemma RequestKeepsStarted(m: Master, command: byte, n: nat)
    requires StartedInv(m)
    ensures StartedInv(Request(m, command, n, false))
  {
    hide LastStart;
    StartStays(m.log, Sent(command, n, false));
  }

  lemma PolicyKeepsStarted(m: Master, startup: u32, bootTimeMs: u32)
    requires StartedInv(m)
    ensures StartedInv(m.(startup := startup, bootTimeMs := bootTimeMs))
  {
  }

  lemma BeginKeepsStarted(m: Master, now: u32)
    requires Shaped(m) && StartedInv(m)
    ensures StartedInv(StartSupervision(m, now).0)
  {
    assert (m.log + [Started(now)])[..|m.log|] == m.log;
  }

  lemma ProcessKeepsStarted(m: Master, now: u32)
    requires Shaped(m) && StartedInv(m)
    ensures StartedInv(Process(m, now))
  {
    hide LastStart;
    hide Conclude;
    if m.running {
      ExpireKeepsStart(m.(now := now), 1);
      ConcludeKeepsStart(ExpireFrom(m.(now := now), 1));
    }
  }

  lemma StepKeepsStarted(m: Master, a: Action)
    requires Inv(m) && StartedInv(m)
    ensures StartedInv(Step(m, a))
  {
    hide StartedInv;
    match a {
      case DoStart(now) => BeginKeepsStarted(m, now);
      case DoReceive(canId, state, dlc, now) => ReceiveKeepsStarted(m, canId, state, dlc, now);
      case DoProcess(now) => ProcessKeepsStarted(m, now);
      case DoConfigure(n, mandatory, autoStart, timeoutMs) =>
        ConfigureKeepsStarted(m, n, mandatory, autoStart, timeoutMs);
      case DoRequest(command, n) => RequestKeepsStarted(m, command, n);
      case DoPolicy(startup, bootTimeMs) => PolicyKeepsStarted(m, startup, bootTimeMs);
    }
  }

  lemma ReceiveKeepsStarted(m: Master, canId: u16, state: byte, dlc: byte, now: u32)
    requires Inv(m) && StartedInv(m)
    ensures StartedInv(Receive(m, canId, state, dlc, now))
  {
    if m.running {
      var m' := Receive(m, canId, state, dlc, now);
      assert m'.running && m'.startedAt == m.startedAt;
      FrameIsLogged(m, canId, state, dlc, now);
      LogGrowsUnstarted(m.log, m'.log);
    }
  }

  lemma LogGrowsUnstarted(log: seq<Entry>, log': seq<Entry>)
    requires log' == log || (|log'| == |log| + 1 && log'[..|log|] == log && !log'[|log|].Started?)
    ensures LastStart(log') == LastStart(log)
  {
  }

  lemma {:induction false} RunKeepsStarted(m: Master, actions: seq<Action>)
    requires Inv(m) && StartedInv(m)
    ensures StartedInv(Run(m, actions))
    decreases |actions|
  {
    hide Inv;
    hide StartedInv;
    if actions != [] {
      StepKeepsStarted(m, actions[0]);
      RunKeepsStarted(Step(m, actions[0]), actions[1..]);
    }
  }

  /** In every run the master runs exactly since it was first started, and its boot time counts from the last start. */
  lemma RunsSinceStart(masterId: byte, hasSend: bool, actions: seq<Action>)
    ensures var m := Run(Init(masterId, hasSend), actions);
            && (m.running <==> exists i :: 0 <= i < |m.log| && m.log[i].Started?)
            && (m.running ==> LastStart(m.log) == Some(m.startedAt))
  {
    RunKeepsStarted(Init(masterId, hasSend), actions);
    StartIsThere(Run(Init(masterId, hasSend), actions).log);
  }

  lemma {:induction false} StartIsThere(log: seq<Entry>)
    ensures LastStart(log).Some? <==> exists i :: 0 <= i < |log| && log[i].Started?
  {
    if log != [] {
      StartIsThere(log[..|log| - 1]);
    }
  }
}
