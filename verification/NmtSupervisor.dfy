/** The NMT master as it runs: an array of node records, updated in place by loops over the node ids. */
module NmtSupervisor {
  import opened Words
  import opened NmtMaster

  class Supervisor {
    const masterId: byte
    const hasSend: bool
    var startup: u32
    var bootTimeMs: u32
    var now: u32
    var startedAt: u32
    var running: bool
    var ready: bool
    var bootReported: bool
    const nodes: array<Node>
    ghost var log: seq<Entry>

    ghost function State(): Master
      reads this, nodes
    {
      Master(masterId, hasSend, startup, bootTimeMs, now, startedAt, running, ready, bootReported, nodes[..], log)
    }

    ghost predicate Valid()
      reads this, nodes
    {
      NmtMaster.Inv(State())
    }

    constructor (masterId: byte, hasSend: bool)
      ensures fresh(nodes) && Valid() && State() == Init(masterId, hasSend)
    {
      this.masterId, this.hasSend := masterId, hasSend;
      startup, bootTimeMs, now, startedAt := 0, DEFAULT_BOOT_TIME_MS, 0, 0;
      running, ready, bootReported := false, false, false;
      nodes := new Node[MAX_NODES + 1](_ => BLANK);
      log := [];
    }

    method Assign(n: byte, mandatory: bool, autoStart: bool, timeoutMs: u16) returns (ok: bool)
      requires Valid()
      modifies this, nodes
      ensures Valid()
      ensures (State(), ok) == Configure(old(State()), n, mandatory, autoStart, timeoutMs)
    {
      ConfigureKeepsInv(State(), n, mandatory, autoStart, timeoutMs);
      if !IsNode(n) || n == masterId {
        return false;
      }
      nodes[n] := Node(true, mandatory, autoStart, timeoutMs, nodes[n].lastMs, WaitingBootup);
      log := log + [Configured(n)];
      ok := true;
    }

    method Begin(at: u32) returns (ok: bool)
      requires Valid()
      modifies this, nodes
      ensures Valid()
      ensures (State(), ok) == StartSupervision(old(State()), at)
    {
      StartKeepsInv(State(), at);
      ok := TryStart(at);
    }

    method TryStart(at: u32) returns (ok: bool)
      requires nodes.Length == MAX_NODES + 1
      modifies this, nodes
      ensures (State(), ok) == StartSupervision(old(State()), at)
    {
      if !hasSend || !IsMaster(startup) {
        return false;
      }
      now, startedAt := at, at;
      running, ready, bootReported := true, false, false;
      AwaitAll(at);
      log := log + [Started(at)];
      ok := true;
    }

    method AwaitAll(at: u32)
      requires nodes.Length == MAX_NODES + 1
      modifies nodes
      ensures nodes[..] == AllWaiting(old(nodes[..]), at)
    {
      for n := 1 to MAX_NODES + 1
        invariant forall k :: 1 <= k < n ==> nodes[k] == Waiting(old(nodes[k]), at)
        invariant forall k :: n <= k <= MAX_NODES ==> nodes[k] == old(nodes[k])
        invariant nodes[0] == old(nodes[0])
      {
        if nodes[n].isAssigned {
          nodes[n] := nodes[n].(state := WaitingBootup, lastMs := at);
        }
      }
    }

    method Hear(canId: u16, state: byte, dlc: byte, at: u32)
      requires Valid()
      modifies this, nodes
      ensures Valid()
      ensures State() == Receive(old(State()), canId, state, dlc, at)
    {
      ReceiveKeepsInv(State(), canId, state, dlc, at);
      HearFrame(canId, state, dlc, at);
    }

    method HearFrame(canId: u16, state: byte, dlc: byte, at: u32)
      requires nodes.Length == MAX_NODES + 1
      modifies this`now, this`log, nodes
      ensures State() == Receive(old(State()), canId, state, dlc, at)
    {
      if !running {
        return;
      }
      now := at;
      if dlc != 1 || canId < HEARTBEAT_BASE || canId > HEARTBEAT_BASE + MAX_NODES {
        log := log + [InvalidFrame(0, 0, at)];
        return;
      }
      var n := canId - HEARTBEAT_BASE;
      if nodes[n].isAssigned {
        Note(n, state);
      }
    }

    method Note(n: nat, state: byte)
      requires nodes.Length == MAX_NODES + 1 && n <= MAX_NODES
      modifies this`log, nodes
      ensures State() == HeardFrom(old(State()), n, state)
    {
      nodes[n] := nodes[n].(lastMs := now);
      if state == 0 {
        nodes[n] := nodes[n].(state := PreOp);
        log := log + [Bootup(n, now)];
      } else if state == 0x7F {
        nodes[n] := nodes[n].(state := PreOp);
        log := log + [Heartbeat(n, state, now)];
      } else if state == 5 {
        nodes[n] := nodes[n].(state := Operational);
        log := log + [Heartbeat(n, state, now)];
      } else if state == 4 {
        nodes[n] := nodes[n].(state := Stopped);
        log := log + [Heartbeat(n, state, now)];
      } else {
        log := log + [InvalidFrame(n, state, now)];
      }
      assert nodes[..] == HeardFrom(old(State()), n, state).nodes;
    }

    method Expire()
      requires nodes.Length == MAX_NODES + 1
      modifies this`log, nodes
      ensures State() == ExpireFrom(old(State()), 1)
    {
      for n := 1 to MAX_NODES + 1
        invariant ExpireFrom(State(), n) == ExpireFrom(old(State()), 1)
      {
        ExpireNode(n);
      }
    }

    method ExpireNode(n: nat)
      requires nodes.Length == MAX_NODES + 1 && n <= MAX_NODES
      modifies this`log, nodes
      ensures State() == ExpireOne(old(State()), n)
    {
      if nodes[n].isAssigned {
        if nodes[n].timeoutMs != 0 && Sub32(now, nodes[n].lastMs) > nodes[n].timeoutMs && nodes[n].state != TimedOut {
          nodes[n] := nodes[n].(state := TimedOut);
          log := log + [HeartbeatTimeout(n, now)];
        }
      }
      assert nodes[..] == ExpireOne(old(State()), n).nodes;
    }

    method AllMandatoryReady() returns (ok: bool)
      requires nodes.Length == MAX_NODES + 1
      ensures ok <==> MandatoryNodesReady(nodes[..])
    {
      for n := 1 to MAX_NODES + 1
        invariant forall k :: 1 <= k < n ==> !Missing(nodes[k])
      {
        if Missing(nodes[n]) {
          assert Missing(nodes[..][n]);
          return false;
        }
      }
      ok := true;
    }

    method SomeAssigned() returns (found: bool)
      requires nodes.Length == MAX_NODES + 1
      ensures found <==> AnyAssigned(nodes[..])
    {
      for n := 1 to MAX_NODES + 1
        invariant forall k :: 1 <= k < n ==> !nodes[k].isAssigned
      {
        if nodes[n].isAssigned {
          assert nodes[..][n].isAssigned;
          return true;
        }
      }
      found := false;
    }

    method ReportBootTimeout()
      requires nodes.Length == MAX_NODES + 1 && !MandatoryNodesReady(nodes[..])
      modifies this
      ensures State() == Emit(old(State()).(bootReported := true), BootTimeout(FirstMissing(nodes[..], 1), now))
    {
      for n := 1 to MAX_NODES + 1
        invariant forall k :: 1 <= k < n ==> !Missing(nodes[k])
        invariant State() == old(State())
      {
        if Missing(nodes[n]) {
          bootReported := true;
          log := log + [BootTimeout(n, now)];
          return;
        }
      }
      assert false;
    }

    method AutoStart()
      requires nodes.Length == MAX_NODES + 1
      modifies this`log
      ensures State() == AutoStartFrom(old(State()), 1)
    {
      for n := 1 to MAX_NODES + 1
        invariant AutoStartFrom(State(), n) == AutoStartFrom(old(State()), 1)
      {
        if nodes[n].isAssigned && nodes[n].autoStart {
          Command(START, n, true);
        }
      }
    }

    method Command(command: byte, n: nat, automatic: bool)
      modifies this`log
      ensures State() == Request(old(State()), command, n, automatic)
    {
      if hasSend && CommandValid(command) && n <= MAX_NODES {
        log := log + [Sent(command, n, automatic)];
      }
    }

    method Advance(at: u32)
      requires Valid()
      modifies this, nodes
      ensures Valid()
      ensures State() == Process(old(State()), at)
    {
      ProcessKeepsInv(State(), at);
      if !running {
        return;
      }
      now := at;
      Expire();
      Settle();
    }

    method Settle()
      requires nodes.Length == MAX_NODES + 1
      modifies this
      ensures State() == Conclude(old(State()))
    {
      var allReady := AllMandatoryReady();
      if !allReady {
        if bootTimeMs != 0 && !bootReported && Sub32(now, startedAt) > bootTimeMs {
          ReportBootTimeout();
        }
        return;
      }
      var any := SomeAssigned();
      if !ready && any {
        ready := true;
        log := log + [NetworkReady(now)];
        if !ApplicationStarts(startup) {
          AutoStart();
        }
      }
    }
  }
}
