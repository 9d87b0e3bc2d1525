/**
 * The diagnostic server as it runs: its fields are updated in place and every service writes its response
 * into the caller's buffer.
 */
module UdsResponder {
  import opened Words
  import opened Buffers
  import opened UdsServer

  /** The result is that of the outcome; if there is a response to send, the buffer starts with it. */
  ghost predicate Carries(response: array<byte>, code: Code, length: nat, o: Outcome)
    reads response
  {
    && code == o.code
    && (code.Ok? ==> length <= response.Length && response[..length] == o.response)
    && (code.NoResponse? ==> length == 0)
  }

  class Responder {
    const installed: set<byte>
    var session: byte
    var securityLevel: byte
    var nextBlock: byte
    var maxBlock: u16
    var lastActivityMs: u32
    var downloadActive: bool
    var resetPending: bool
    var dtcSetting: bool

    ghost function State(): Server
      reads this
    {
      Server(installed, session, securityLevel, nextBlock, maxBlock, lastActivityMs, downloadActive,
             resetPending, dtcSetting)
    }

    constructor (installed: set<byte>, now: u32)
      ensures State() == Init(installed, now)
    {
      this.installed := installed;
      session, securityLevel, nextBlock, maxBlock, lastActivityMs := 1, 0, 1, 0, now;
      downloadActive, resetPending, dtcSetting := false, false, true;
    }

    static method Refuse(response: array<byte>, service: byte, nrc: byte) returns (code: Code, length: nat)
      requires 1 <= response.Length < 0x1_0000
      modifies response
      ensures forall s: Server :: Carries(response, code, length, Negative(s, service, nrc, response.Length))
    {
      if response.Length < 3 {
        return ResponseTooLong, 0;
      }
      response[0], response[1], response[2] := 0x7F, service, nrc;
      code, length := Ok, 3;
    }

    static method Confirm(response: array<byte>, service: byte, suppressed: bool, bytes: seq<byte>)
      returns (code: Code, length: nat)
      requires 1 <= response.Length < 0x1_0000
      modifies response
      ensures forall s: Server ::
                Carries(response, code, length, Confirmed(s, service, suppressed, bytes, response.Length))
    {
      if suppressed {
        return NoResponse, 0;
      }
      if response.Length < |bytes| {
        code, length := Refuse(response, service, 0x14);
        return;
      }
      CopyInto(response, 0, bytes);
      code, length := Ok, |bytes|;
    }

    /** The header goes out before the callback is asked; a refusal overwrites it. */
    static method Extend(response: array<byte>, service: byte, header: seq<byte>, r: Reply)
      returns (code: Code, length: nat)
      requires 1 <= response.Length < 0x1_0000 && |header| <= response.Length
      modifies response
      ensures forall s: Server :: Carries(response, code, length, Extended(s, service, header, r, response.Length))
    {
      CopyInto(response, 0, header);
      if !r.code.Ok? {
        code, length := Refuse(response, service, Nrc(r.code));
        return;
      }
      if response.Length - |header| < |r.value| {
        code, length := Refuse(response, service, 0x14);
        return;
      }
      CopyInto(response, |header|, r.value);
      assert response[..|header| + |r.value|] == response[..|header|] + r.value;
      code, length := Ok, |header| + |r.value|;
    }

    method ControlSession(q: seq<byte>, response: array<byte>) returns (code: Code, length: nat)
      requires q != [] && 1 <= response.Length < 0x1_0000
      modifies this, response
      ensures State() == SessionControl(old(State()), q, response.Length).server
      ensures Carries(response, code, length, SessionControl(old(State()), q, response.Length))
    {
      if |q| != 2 {
        code, length := Refuse(response, q[0], 0x13);
        return;
      }
      var subfunction := q[1] % 0x80;
      if subfunction != 1 && subfunction != 2 && subfunction != 3 {
        code, length := Refuse(response, q[0], 0x12);
        return;
      }
      session := subfunction;
      securityLevel := 0;
      code, length := Confirm(response, q[0], q[1] >= 0x80,
                              [0x50, subfunction, P2_MS / 256, P2_MS % 256,
                               P2_STAR_MS / 10 / 256, P2_STAR_MS / 10 % 256]);
    }

    method ResetEcu(q: seq<byte>, response: array<byte>, r: Reply) returns (code: Code, length: nat)
      requires q != [] && 1 <= response.Length < 0x1_0000
      modifies this, response
      ensures State() == EcuReset(old(State()), q, response.Length, r).server
      ensures Carries(response, code, length, EcuReset(old(State()), q, response.Length, r))
    {
      if |q| != 2 {
        code, length := Refuse(response, q[0], 0x13);
        return;
      }
      if q[1] % 0x80 != 1 || 0x11 !in installed {
        code, length := Refuse(response, q[0], 0x12);
        return;
      }
      if !r.code.Ok? {
        code, length := Refuse(response, q[0], Nrc(r.code));
        return;
      }
      resetPending := true;
      code, length := Confirm(response, q[0], q[1] >= 0x80, [0x51, q[1] % 0x80]);
    }

    method ReadTroubleCodes(q: seq<byte>, response: array<byte>, r: Reply) returns (code: Code, length: nat)
      requires q != [] && 1 <= response.Length < 0x1_0000
      modifies response
      ensures Carries(response, code, length, ReadDtc(State(), q, response.Length, r))
    {
      if |q| < 2 || 0x19 !in installed {
        code, length := Refuse(response, q[0], 0x13);
        return;
      }
      code, length := Extend(response, q[0], [0x59], r);
    }

    /** One identifier and its value go behind the response so far, or the code of the refusal comes back. */
    static method AppendRecord(response: array<byte>, length: nat, high: byte, low: byte, r: Reply)
      returns (refusal: Option<byte>, next: nat)
      requires length <= response.Length
      modifies response
      ensures refusal == if response.Length - length < 2 then Some(0x14)
                         else if !r.code.Ok? then Some(Nrc(r.code))
                         else if response.Length - length - 2 < |r.value| then Some(0x14)
                         else None
      ensures refusal.None? ==> next == length + 2 + |r.value| <= response.Length
      ensures refusal.None? ==> response[..next] == old(response[..length]) + [high, low] + r.value
    {
      next := length;
      if response.Length - length < 2 {
        return Some(0x14), next;
      }
      response[length], response[length + 1] := high, low;
      next := length + 2;
      ghost var done := response[..next];
      if !r.code.Ok? {
        return Some(Nrc(r.code)), next;
      }
      if response.Length - next < |r.value| {
        return Some(0x14), next;
      }
      CopyInto(response, next, r.value);
      assert response[..next + |r.value|] == done + r.value;
      refusal, next := None, next + |r.value|;
    }

    /** The loop over the identifiers, growing the response in place. */
    method ReadIdentifiers(q: seq<byte>, response: array<byte>, replies: Replies) returns (code: Code, length: nat)
      requires q != [] && 1 <= response.Length < 0x1_0000
      modifies response
      ensures Carries(response, code, length, ReadData(State(), q, response.Length, replies))
    {
      if |q| < 3 || (|q| - 1) % 2 != 0 || 0x22 !in installed {
        code, length := Refuse(response, q[0], 0x13);
        return;
      }
      response[0] := 0x62;
      length := 1;
      assert response[..length] == [0x62];
      var offset := 1;
      while offset < |q|
        invariant 1 <= offset <= |q| && offset % 2 == 1
        invariant 1 <= length <= response.Length
        invariant ReadFrom(q, 0, [0x62], response.Length, replies)
               == ReadFrom(q, offset / 2, response[..length], response.Length, replies)
        decreases |q| - offset
      {
        assert Identifier(q, offset / 2) == [q[offset], q[offset + 1]];
        var refusal;
        refusal, length := AppendRecord(response, length, q[offset], q[offset + 1], replies(offset / 2));
        if refusal.Some? {
          code, length := Refuse(response, q[0], refusal.value);
          return;
        }
        offset := offset + 2;
      }
      code := Ok;
    }

    method AccessSecurity(q: seq<byte>, response: array<byte>, r: Reply) returns (code: Code, length: nat)
      requires q != [] && 1 <= response.Length < 0x1_0000
      requires |r.value| <= 0xFFFF && (|r.value| >= 0xFFFE ==> response.Length >= 2)
      modifies this, response
      ensures State() == SecurityAccess(old(State()), q, response.Length, r).server
      ensures Carries(response, code, length, SecurityAccess(old(State()), q, response.Length, r))
    {
      if |q| < 2 || 0x27 !in installed {
        code, length := Refuse(response, q[0], 0x11);
        return;
      }
      if q[1] == 0 || q[1] > 0x7F {
        code, length := Refuse(response, q[0], 0x12);
        return;
      }
      if q[1] % 2 == 1 {
        code, length := GiveSeed(q, response, r);
      } else {
        code, length := CheckKey(q, response, r);
      }
    }

    method GiveSeed(q: seq<byte>, response: array<byte>, r: Reply) returns (code: Code, length: nat)
      requires |q| >= 2 && 1 <= response.Length < 0x1_0000
      requires |r.value| <= 0xFFFF && (|r.value| >= 0xFFFE ==> response.Length >= 2)
      modifies response
      ensures Carries(response, code, length, SecuritySeed(State(), q, response.Length, r))
    {
      if 2 + |r.value| <= response.Length {
        CopyInto(response, 2, r.value);
      }
      if !r.code.Ok? {
        code, length := Refuse(response, q[0], Nrc(r.code));
        return;
      }
      code, length := Ok, (2 + |r.value|) % 0x1_0000;
      if response.Length < length {
        code, length := Refuse(response, q[0], 0x14);
        return;
      }
      response[0], response[1] := 0x67, q[1];
      if length < 2 {
        assert response[..length] == [0x67, q[1]][..length] == ([0x67, q[1]] + r.value)[..length];
      } else {
        assert response[..length] == [0x67, q[1]] + response[2..length];
      }
    }

    method CheckKey(q: seq<byte>, response: array<byte>, r: Reply) returns (code: Code, length: nat)
      requires |q| >= 2 && q[1] <= 0x7F && 1 <= response.Length < 0x1_0000
      modifies this, response
      ensures State() == SecurityKey(old(State()), q, response.Length, r).server
      ensures Carries(response, code, length, SecurityKey(old(State()), q, response.Length, r))
    {
      if |q| <= 2 {
        code, length := Refuse(response, q[0], 0x13);
        return;
      }
      if !r.code.Ok? {
        code, length := Refuse(response, q[0], Nrc(r.code));
        return;
      }
      securityLevel := (q[1] + 1) / 2;
      code, length := Confirm(response, q[0], false, [0x67, q[1]]);
    }

    method ControlCommunication(q: seq<byte>, response: array<byte>, r: Reply) returns (code: Code, length: nat)
      requires q != [] && 1 <= response.Length < 0x1_0000
      modifies response
      ensures Carries(response, code, length, CommunicationControl(State(), q, response.Length, r))
    {
      if |q| != 3 || 0x28 !in installed {
        code, length := Refuse(response, q[0], 0x13);
        return;
      }
      if !r.code.Ok? {
        code, length := Refuse(response, q[0], Nrc(r.code));
        return;
      }
      code, length := Confirm(response, q[0], q[1] >= 0x80, [0x68, q[1] % 0x80, q[2]]);
    }

    /** Four bytes go out before the callback is asked: the caller's buffer must have them. */
    method ControlRoutine(q: seq<byte>, response: array<byte>, r: Reply) returns (code: Code, length: nat)
      requires q != [] && 1 <= response.Length < 0x1_0000
      requires |q| >= 4 && 0x31 in installed ==> response.Length >= 4
      modifies response
      ensures Carries(response, code, length, RoutineControl(State(), q, response.Length, r))
    {
      if |q| < 4 || 0x31 !in installed {
        code, length := Refuse(response, q[0], 0x13);
        return;
      }
      code, length := Extend(response, q[0], [0x71, q[1] % 0x80, q[2], q[3]], r);
    }

    method KeepAlive(q: seq<byte>, response: array<byte>) returns (code: Code, length: nat)
      requires q != [] && 1 <= response.Length < 0x1_0000
      modifies response
      ensures Carries(response, code, length, TesterPresent(State(), q, response.Length))
    {
      if |q| != 2 {
        code, length := Refuse(response, q[0], 0x13);
        return;
      }
      if q[1] % 0x80 != 0 {
        code, length := Refuse(response, q[0], 0x12);
        return;
      }
      code, length := Confirm(response, q[0], q[1] >= 0x80, [0x7E, q[1]]);
    }

    method ControlDtcSetting(q: seq<byte>, response: array<byte>, r: Reply) returns (code: Code, length: nat)
      requires q != [] && 1 <= response.Length < 0x1_0000
      modifies this, response
      ensures State() == DtcSetting(old(State()), q, response.Length, r).server
      ensures Carries(response, code, length, DtcSetting(old(State()), q, response.Length, r))
    {
      if |q| != 2 || 0x85 !in installed {
        code, length := Refuse(response, q[0], 0x13);
        return;
      }
      if q[1] % 0x80 != 1 && q[1] % 0x80 != 2 {
        code, length := Refuse(response, q[0], 0x12);
        return;
      }
      if !r.code.Ok? {
        code, length := Refuse(response, q[0], Nrc(r.code));
        return;
      }
      dtcSetting := q[1] % 0x80 == 1;
      code, length := Confirm(response, q[0], q[1] >= 0x80, [0xC5, q[1] % 0x80]);
    }

    /** The call a request leads to, if it passes the checks before it. */
    method CallFor(q: seq<byte>) returns (call: Option<Call>)
      ensures call == Forwarded(State(), q)
    {
      if q == [] || |q| > MAX_REQUEST || q[0] !in installed {
        return None;
      }
      if q[0] == 0x34 && DownloadWellFormed(q) {
        var split := 2 + q[1] as nat / 16;
        var address := ReadBigEndian(q[2..split]);
        var size := ReadBigEndian(q[split..]);
        return Some(RequestDownload(address, size));
      }
      if q[0] == 0x36 && |q| >= 3 && downloadActive && q[1] == nextBlock && |q| - 2 <= (maxBlock - 2) % 0x1_0000 {
        return Some(TransferData(q[1], q[2..]));
      }
      if q[0] == 0x37 && downloadActive {
        return Some(TransferExit(q[1..]));
      }
      call := None;
    }

    method AcceptDownload(q: seq<byte>, response: array<byte>, r: Reply) returns (code: Code, length: nat)
      requires q != [] && 1 <= response.Length < 0x1_0000
      modifies this, response
      ensures State() == RequestDownloadService(old(State()), q, response.Length, r).server
      ensures Carries(response, code, length, RequestDownloadService(old(State()), q, response.Length, r))
    {
      if 0x34 !in installed || !DownloadWellFormed(q) {
        code, length := Refuse(response, q[0], 0x13);
        return;
      }
      if !r.code.Ok? {
        code, length := Refuse(response, q[0], Nrc(r.code));
        return;
      }
      if r.blockLength < 3 || response.Length < 4 {
        code, length := Refuse(response, q[0], 0x70);
        return;
      }
      downloadActive := true;
      nextBlock := 1;
      maxBlock := r.blockLength;
      CopyInto(response, 0, [0x74, 0x20, r.blockLength / 256, r.blockLength % 256]);
      code, length := Ok, 4;
    }

    method AcceptBlock(q: seq<byte>, response: array<byte>, r: Reply) returns (code: Code, length: nat)
      requires q != [] && 1 <= response.Length < 0x1_0000
      modifies this, response
      ensures State() == TransferDataService(old(State()), q, response.Length, r).server
      ensures Carries(response, code, length, TransferDataService(old(State()), q, response.Length, r))
    {
      if |q| < 3 || !downloadActive || 0x36 !in installed {
        code, length := Refuse(response, q[0], 0x24);
        return;
      }
      if q[1] != nextBlock {
        code, length := Refuse(response, q[0], 0x73);
        return;
      }
      if |q| - 2 > (maxBlock - 2) % 0x1_0000 {
        code, length := Refuse(response, q[0], 0x13);
        return;
      }
      if !r.code.Ok? {
        code, length := Refuse(response, q[0], Nrc(r.code));
        return;
      }
      nextBlock := (nextBlock + 1) % 256;
      code, length := Confirm(response, q[0], false, [0x76, q[1]]);
    }

    method EndTransfer(q: seq<byte>, response: array<byte>, r: Reply) returns (code: Code, length: nat)
      requires q != [] && 1 <= response.Length < 0x1_0000
      requires 1 + |r.value| <= response.Length || |r.value| == 0xFFFF
      modifies this, response
      ensures State() == TransferExitService(old(State()), q, response.Length, r).server
      ensures Carries(response, code, length, TransferExitService(old(State()), q, response.Length, r))
    {
      if !downloadActive || 0x37 !in installed {
        code, length := Refuse(response, q[0], 0x24);
        return;
      }
      if 1 + |r.value| <= response.Length {
        CopyInto(response, 1, r.value);
      }
      if !r.code.Ok? {
        code, length := Refuse(response, q[0], Nrc(r.code));
        return;
      }
      response[0] := 0x77;
      length := (1 + |r.value|) % 0x1_0000;
      if length > 0 {
        assert response[..length] == [0x77] + response[1..length];
      }
      downloadActive := false;
      code := Ok;
    }

    method ServeDownload(q: seq<byte>, response: array<byte>, r: Reply) returns (code: Code, length: nat)
      requires q != [] && 1 <= response.Length < 0x1_0000 && StaysInside(State(), q, response.Length, r)
      requires q[0] in {0x34, 0x36, 0x37}
      modifies this, response
      ensures State() == DownloadServices(old(State()), q, response.Length, r).server
      ensures Carries(response, code, length, DownloadServices(old(State()), q, response.Length, r))
    {
      if q[0] == 0x34 {
        code, length := AcceptDownload(q, response, r);
      } else if q[0] == 0x36 {
        code, length := AcceptBlock(q, response, r);
      } else {
        code, length := EndTransfer(q, response, r);
      }
    }

    method ServeOther(q: seq<byte>, response: array<byte>, replies: Replies) returns (code: Code, length: nat)
      requires q != [] && 1 <= response.Length < 0x1_0000 && StaysInside(State(), q, response.Length, replies(0))
      modifies this, response
      ensures State() == OtherServices(old(State()), q, response.Length, replies).server
      ensures Carries(response, code, length, OtherServices(old(State()), q, response.Length, replies))
    {
      match q[0] {
        case 0x10 => code, length := ControlSession(q, response);
        case 0x11 => code, length := ResetEcu(q, response, replies(0));
        case 0x19 => code, length := ReadTroubleCodes(q, response, replies(0));
        case 0x22 => code, length := ReadIdentifiers(q, response, replies);
        case 0x27 => code, length := AccessSecurity(q, response, replies(0));
        case 0x28 => code, length := ControlCommunication(q, response, replies(0));
        case 0x31 => code, length := ControlRoutine(q, response, replies(0));
        case 0x3E => code, length := KeepAlive(q, response);
        case 0x85 => code, length := ControlDtcSetting(q, response, replies(0));
        case _ => code, length := Refuse(response, q[0], 0x11);
      }
    }

    /**
     * One request. A response to send fits the buffer; and if the callbacks respect what is not checked, it starts
     * with the service plus 0x40 or is exactly 7F, the service and one code.
     */
    method Serve(q: seq<byte>, response: array<byte>, now: u32, replies: Replies) returns (code: Code, length: nat)
      requires response.Length < 0x1_0000 && StaysInside(State(), q, response.Length, replies(0))
      modifies this, response
      ensures State() == Handle(old(State()), q, response.Length, now, replies).server
      ensures Carries(response, code, length, Handle(old(State()), q, response.Length, now, replies))
      ensures code.Error? <==> response.Length == 0 || q == [] || |q| > MAX_REQUEST
      ensures code.Ok? ==> length <= response.Length
      ensures code.Ok? && Respects(q, response.Length, replies(0)) ==>
                && 1 <= length <= response.Length
                && (response[0] == q[0] as int + 0x40 || (length == 3 && response[..2] == [0x7F, q[0]]))
    {
      if q != [] && Respects(q, response.Length, replies(0)) {
        ResponseAccounting(State(), q, response.Length, now, replies);
      }
      code, length := Dispatch(q, response, now, replies);
      if code.Ok? && length > 0 {
        assert response[..length][0] == response[0];
      }
    }

    method Dispatch(q: seq<byte>, response: array<byte>, now: u32, replies: Replies) returns (code: Code, length: nat)
      requires response.Length < 0x1_0000 && StaysInside(State(), q, response.Length, replies(0))
      modifies this, response
      ensures State() == Handle(old(State()), q, response.Length, now, replies).server
      ensures Carries(response, code, length, Handle(old(State()), q, response.Length, now, replies))
    {
      if response.Length == 0 || q == [] || |q| > MAX_REQUEST {
        return Error, 0;
      }
      lastActivityMs := now;
      if q[0] in {0x34, 0x36, 0x37} {
        code, length := ServeDownload(q, response, replies(0));
      } else {
        code, length := ServeOther(q, response, replies);
      }
    }

    method TickSession(now: u32) returns (code: Code)
      modifies this
      ensures (State(), code) == Tick(old(State()), now)
    {
      if Expired(now, Add32(lastActivityMs, S3_MS)) {
        session := 1;
        securityLevel := 0;
        downloadActive := false;
        nextBlock := 1;
        return Busy;
      }
      code := Ok;
    }
  }
}
