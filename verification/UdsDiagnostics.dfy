/** The runtime object of the reference application: server and download side by side, and the callbacks between. */
module UdsDiagnostics {
  import opened Words
  import D = UdsDownload
  import S = UdsServer
  import R = UdsRuntime
  import UdsDownloader
  import UdsResponder

  class Diagnostics {
    const server: UdsResponder.Responder
    const download: UdsDownloader.Downloader

    ghost function State(): R.Runtime
      reads server, download
    {
      R.Runtime(server.State(), download.State())
    }

    constructor (memory: D.MemoryMap, hasCallbacks: bool, installed: set<byte>, now: u32)
      ensures fresh(server) && fresh(download) && State() == R.Init(memory, hasCallbacks, installed, now)
    {
      server := new UdsResponder.Responder(installed, now);
      download := new UdsDownloader.Downloader(memory, hasCallbacks);
    }

    method OnRequestDownload(address: u32, length: u32, now: u32, m: R.Memory) returns (reply: S.Reply)
      requires download.Valid()
      modifies download
      ensures var (d, _, expected) := R.Begins(old(download.State()), address, length, now, m);
              download.State() == d && reply == expected
    {
      var result := download.BeginDownload(address, length, now, m.erase);
      if !result.Ok? {
        return S.Reply(S.OutOfRange, [], 0);
      }
      reply := S.Reply(S.Ok, [], download.memory.maxBlock);
    }

    method OnTransferData(block: byte, data: seq<byte>, now: u32, m: R.Memory) returns (reply: S.Reply)
      requires download.Valid()
      modifies download
      ensures var (d, _, expected) := R.Writes(old(download.State()), block, data, now, m);
              download.State() == d && reply == expected
    {
      var result := download.WriteBlock(block, R.AsBits(data), now, m.program);
      reply := S.Reply(if result.Ok? then S.Ok else S.ProgrammingFailure, [], 0);
    }

    method OnTransferExit(parameters: seq<byte>, capacity: u16, now: u32, m: R.Memory) returns (reply: S.Reply)
      requires download.Valid()
      modifies download
      ensures var (d, _, expected) := R.Exits(old(download.State()), parameters, capacity, now, m);
              download.State() == d && reply == expected
    {
      if capacity < 2 {
        return R.FAILED;
      }
      var expected := None;
      if |parameters| == 5 {
        expected := Some(R.AsChecksum(parameters[1..]));
      } else if |parameters| != 1 {
        return R.FAILED;
      }
      var result := download.FinishDownload(expected, now, m.verify);
      if !result.Ok? {
        return S.Reply(S.ProgrammingFailure, [], 0);
      }
      reply := S.Reply(S.Ok, [0], 0);
    }

    /** The callback a request leads to, if any. */
    method Callback(call: S.Call, capacity: u16, now: u32, m: R.Memory) returns (reply: S.Reply)
      requires download.Valid()
      modifies download
      ensures var (d, _, expected) := R.Forward(old(download.State()), call, capacity, now, m);
              download.State() == d && reply == expected
    {
      match call {
        case RequestDownload(address, length) => reply := OnRequestDownload(address, length, now, m);
        case TransferData(block, data) => reply := OnTransferData(block, data, now, m);
        case TransferExit(parameters) => reply := OnTransferExit(parameters, capacity, now, m);
      }
    }

    /** One request; the runtime's invariant, and with it the pairing of the block counters, is kept. */
    method Serve(q: seq<byte>, response: array<byte>, now: u32, others: S.Replies, m: R.Memory)
      returns (code: S.Code, length: nat)
      requires R.Inv(State()) && 4 <= response.Length < 0x1_0000
      requires S.StaysInside(server.State(), q, response.Length, others(0))
      modifies server, download, response
      ensures R.Inv(State())
      ensures State() == R.Serve(old(State()), q, response.Length, now, others, m).0
      ensures UdsResponder.Carries(response, code, length, R.Serve(old(State()), q, response.Length, now, others, m).1)
    {
      R.StepKeepsInv(State(), R.Request(q, response.Length, now, others, m));
      var call := server.CallFor(q);
      if call.None? {
        code, length := server.Serve(q, response, now, others);
        return;
      }
      var reply := Callback(call.value, response.Length, now, m);
      code, length := server.Serve(q, response, now, _ => reply);
    }
  }
}
