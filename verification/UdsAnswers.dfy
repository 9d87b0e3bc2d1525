/**
 * Which requests the server grants, and what it answers: stated by the shape of the request and the callback's
 * result alone, service by service, for every request but the one for data by identifier, which `UdsServer`
 * treats by itself.
 */
module UdsAnswers {
  import opened Words
  import opened UdsServer

  /** A request the server looks at. */
  predicate Heard(q: seq<byte>, capacity: u16) {
    capacity > 0 && 1 <= |q| <= 4095
  }

  /** The client may ask for silence instead of a positive response. */
  predicate Suppressed(q: seq<byte>) {
    |q| >= 2 && q[0] in {0x10, 0x11, 0x28, 0x3E, 0x85} && q[1] >= 0x80
  }

  predicate LengthFits(q: seq<byte>)
    requires q != []
  {
    match q[0]
    case 0x10 => |q| == 2
    case 0x11 => |q| == 2
    case 0x19 => |q| >= 2
    case 0x27 => |q| >= 2
    case 0x28 => |q| == 3
    case 0x31 => |q| >= 4
    case 0x34 => |q| >= 3 && 1 <= q[1] / 16 <= 4 && 1 <= q[1] % 16 <= 4 && |q| == 2 + q[1] as nat / 16 + q[1] as nat % 16
    case 0x36 => |q| >= 3
    case 0x3E => |q| == 2
    case 0x85 => |q| == 2
    case _ => true
  }

  predicate SubfunctionFits(q: seq<byte>)
    requires q != [] && LengthFits(q)
  {
    match q[0]
    case 0x10 => 1 <= q[1] % 0x80 <= 3
    case 0x11 => q[1] % 0x80 == 1
    case 0x27 => 1 <= q[1] <= 0x7F
    case 0x3E => q[1] % 0x80 == 0
    case 0x85 => 1 <= q[1] % 0x80 <= 2
    case _ => true
  }

  predicate HasCallback(service: byte) {
    service in {0x11, 0x19, 0x27, 0x28, 0x31, 0x34, 0x36, 0x37, 0x85}
  }

  /** A block is the one due and no longer than announced; a key is there; a transfer is open. */
  predicate InOrder(s: Server, q: seq<byte>)
    requires q != [] && LengthFits(q)
  {
    match q[0]
    case 0x27 => q[1] % 2 == 0 ==> |q| >= 3
    case 0x36 => s.downloadActive && q[1] == s.nextBlock && |q| - 2 <= (s.maxBlock - 2) % 0x1_0000
    case 0x37 => s.downloadActive
    case _ => true
  }

  /** The request is in order, so that only the callback can still refuse it. */
  predicate Admissible(s: Server, q: seq<byte>) {
    && q != [] && (q[0] in {0x10, 0x3E} || (HasCallback(q[0]) && q[0] in s.installed))
    && LengthFits(q) && SubfunctionFits(q) && InOrder(s, q)
  }

  predicate Granted(s: Server, q: seq<byte>, r: Reply) {
    Admissible(s, q) && (HasCallback(q[0]) ==> r.code.Ok?)
  }

  /** What of the request comes back in a positive response. */
  function Echo(q: seq<byte>): seq<byte>
    requires q != [] && LengthFits(q)
  {
    match q[0]
    case 0x10 => [q[1] % 0x80]
    case 0x11 => [q[1] % 0x80]
    case 0x27 => [q[1]]
    case 0x28 => [q[1] % 0x80, q[2]]
    case 0x31 => [q[1] % 0x80, q[2], q[3]]
    case 0x36 => [q[1]]
    case 0x3E => [q[1] % 0x80]
    case 0x85 => [q[1] % 0x80]
    case _ => []
  }

  /** What it says besides: 50 ms and 500 times 10 ms to answer, the seed, the data, or the block length. */
  function Content(q: seq<byte>, r: Reply): seq<byte>
    requires q != [] && LengthFits(q)
  {
    match q[0]
    case 0x10 => [0, 50, 500 / 256, 500 % 256]
    case 0x19 => r.value
    case 0x27 => if q[1] % 2 == 1 then r.value else []
    case 0x31 => r.value
    case 0x34 => [0x20, r.blockLength / 256, r.blockLength % 256]
    case 0x37 => r.value
    case _ => []
  }

  function PositiveResponse(q: seq<byte>, r: Reply): seq<byte>
    requires q != [] && LengthFits(q) && q[0] < 0xC0
  {
    [q[0] + 0x40] + Echo(q) + Content(q, r)
  }

  /** Why an inadmissible request is refused: not supported, wrong length, wrong subfunction, wrong moment. */
  function Reason(s: Server, q: seq<byte>): byte
    requires q != []
  {
    match q[0]
    case 0x10 => if LengthFits(q) then 0x12 else 0x13
    case 0x11 => if LengthFits(q) then 0x12 else 0x13
    case 0x19 => 0x13
    case 0x27 =>
      if !LengthFits(q) || 0x27 !in s.installed then 0x11 else if SubfunctionFits(q) then 0x13 else 0x12
    case 0x28 => 0x13
    case 0x31 => 0x13
    case 0x34 => 0x13
    case 0x36 =>
      if !LengthFits(q) || !s.downloadActive || 0x36 !in s.installed then 0x24
      else if q[1] != s.nextBlock then 0x73 else 0x13
    case 0x37 => 0x24
    case 0x3E => if LengthFits(q) then 0x12 else 0x13
    case 0x85 => if LengthFits(q) && 0x85 in s.installed then 0x12 else 0x13
    case _ => 0x11
  }

  /** The response to a request, or None where the client asked for silence. */
  function Answer(s: Server, q: seq<byte>, capacity: u16, r: Reply): Option<seq<byte>>
    requires q != []
  {
    if !Admissible(s, q) then Some([0x7F, q[0], Reason(s, q)])
    else if HasCallback(q[0]) && !r.code.Ok? then Some([0x7F, q[0], Nrc(r.code)])
    else if Suppressed(q) then None
    else if q[0] == 0x34 && r.blockLength < 3 then Some([0x7F, 0x34, 0x70])
    else if |PositiveResponse(q, r)| > capacity then Some([0x7F, q[0], if q[0] == 0x34 then 0x70 else 0x14])
    else Some(PositiveResponse(q, r))
  }

  /** Room for a refusal, and none of the wraps that `UdsServer` treats by themselves. */
  predicate Straight(s: Server, q: seq<byte>, capacity: u16, r: Reply)
    requires q != []
  {
    && capacity >= 3 && RoomForHeader(s, q, capacity)
    && (q[0] == 0x27 ==> |r.value| <= 0xFFFD)
    && (q[0] == 0x37 ==> |r.value| + 1 <= capacity)
  }

  predicate Gives(o: Outcome, answer: Option<seq<byte>>) {
    if answer.None? then o.code.NoResponse? && o.response == [] else o.code.Ok? && o.response == answer.value
  }

  lemma PlainAnswers(s: Server, q: seq<byte>, capacity: u16, r: Reply)
    requires q != [] && Straight(s, q, capacity, r)
    ensures q[0] == 0x10 ==> Gives(SessionControl(s, q, capacity), Answer(s, q, capacity, r))
    ensures q[0] == 0x3E ==> Gives(TesterPresent(s, q, capacity), Answer(s, q, capacity, r))
    ensures q[0] == 0x11 ==> Gives(EcuReset(s, q, capacity, r), Answer(s, q, capacity, r))
    ensures q[0] == 0x28 ==> Gives(CommunicationControl(s, q, capacity, r), Answer(s, q, capacity, r))
    ensures q[0] == 0x85 ==> Gives(DtcSetting(s, q, capacity, r), Answer(s, q, capacity, r))
  {
  }

  lemma DataAnswers(s: Server, q: seq<byte>, capacity: u16, r: Reply)
    requires q != [] && Straight(s, q, capacity, r)
    ensures q[0] == 0x19 ==> Gives(ReadDtc(s, q, capacity, r), Answer(s, q, capacity, r))
    ensures q[0] == 0x31 ==> Gives(RoutineControl(s, q, capacity, r), Answer(s, q, capacity, r))
  {
  }

  lemma SecurityAnswers(s: Server, q: seq<byte>, capacity: u16, r: Reply)
    requires q != [] && Straight(s, q, capacity, r) && q[0] == 0x27
    ensures Gives(SecurityAccess(s, q, capacity, r), Answer(s, q, capacity, r))
  {
  }

  lemma DownloadAnswers(s: Server, q: seq<byte>, capacity: u16, r: Reply)
    requires q != [] && Straight(s, q, capacity, r) && q[0] in {0x34, 0x36, 0x37}
    ensures Gives(DownloadServices(s, q, capacity, r), Answer(s, q, capacity, r))
  {
  }

  lemma SameAnswerLater(s: Server, q: seq<byte>, capacity: u16, r: Reply, now: u32)
    requires q != []
    ensures Answer(s.(lastActivityMs := now), q, capacity, r) == Answer(s, q, capacity, r)
  {
  }

  /**
   * Every request but one for data by identifier is answered by its shape and the callback's result alone: a
   * positive response exactly if it is admissible, its callback agreed and the response fits; silence instead
   * where the client asked for it; and otherwise the refusal with the code of the first thing wrong.
   */
  lemma AnswersExactly(s: Server, q: seq<byte>, capacity: u16, now: u32, replies: Replies)
    requires Heard(q, capacity) && q[0] != 0x22 && Straight(s, q, capacity, replies(0))
    ensures Gives(Handle(s, q, capacity, now, replies), Answer(s, q, capacity, replies(0)))
  {
    var s' := s.(lastActivityMs := now);
    SameAnswerLater(s, q, capacity, replies(0), now);
    if q[0] in {0x34, 0x36, 0x37} {
      DownloadAnswers(s', q, capacity, replies(0));
    } else if q[0] in {0x19, 0x31} {
      DataAnswers(s', q, capacity, replies(0));
    } else if q[0] == 0x27 {
      SecurityAnswers(s', q, capacity, replies(0));
    } else if q[0] in {0x10, 0x11, 0x28, 0x3E, 0x85} {
      PlainAnswers(s', q, capacity, replies(0));
    }
  }

  /** A key: a request for security access with an even level and at least one byte. */
  predicate IsKey(q: seq<byte>) {
    |q| >= 3 && q[0] == 0x27 && 1 <= q[1] <= 0x7F && q[1] % 2 == 0
  }

  /**
   * A key is acknowledged exactly if its callback accepts it, and then the level it belongs to is unlocked;
   * a rejected key, or one too many or too early, is refused as such and unlocks nothing.
   */
  lemma KeyUnlocksExactly(s: Server, q: seq<byte>, capacity: u16, now: u32, replies: Replies)
    requires Heard(q, capacity) && capacity >= 3 && IsKey(q) && 0x27 in s.installed
    ensures var o, code := Handle(s, q, capacity, now, replies), replies(0).code;
            && (Acknowledges(o, 0x27) <==> code.Ok?)
            && (code.Ok? ==> o.response == [0x67, q[1]])
            && o.server.securityLevel == (if code.Ok? then q[1] / 2 else s.securityLevel)
            && (code.InvalidKey? ==> o.response == [0x7F, 0x27, 0x35])
            && (code.AttemptsExceeded? ==> o.response == [0x7F, 0x27, 0x36])
            && (code.DelayActive? ==> o.response == [0x7F, 0x27, 0x37])
  {
    SecurityAnswers(s.(lastActivityMs := now), q, capacity, Reply(replies(0).code, [], 0));
  }

  /** A callback's failure is told to the client under its own code. */
  lemma FailureIsTold(s: Server, q: seq<byte>, capacity: u16, now: u32, replies: Replies)
    requires Heard(q, capacity) && q[0] != 0x22 && Straight(s, q, capacity, replies(0))
    requires Admissible(s, q) && HasCallback(q[0]) && !replies(0).code.Ok?
    ensures var o, code := Handle(s, q, capacity, now, replies), replies(0).code;
            && Refuses(o, q[0])
            && (code.NotSupported? ==> o.response[2] == 0x11)
            && (code.ResponseTooLong? ==> o.response[2] == 0x14)
            && (code.Busy? ==> o.response[2] == 0x21)
            && (code.SequenceError? ==> o.response[2] == 0x24)
            && (code.OutOfRange? ==> o.response[2] == 0x31)
            && (code.InvalidKey? ==> o.response[2] == 0x35)
            && (code.AttemptsExceeded? ==> o.response[2] == 0x36)
            && (code.DelayActive? ==> o.response[2] == 0x37)
            && (code.ProgrammingFailure? ==> o.response[2] == 0x72)
            && (code.Denied? || code.Error? || code.NoResponse? ==> o.response[2] == 0x22)
  {
    AnswersExactly(s, q, capacity, now, replies);
  }

  // ------------------------------------------------ data by identifier refused

  /** The first identifier that cannot be answered, and why: no room for it, no value, or no room for that. */
  predicate FailsAt(q: seq<byte>, i: nat, capacity: u16, replies: Replies)
    requires q != []
  {
    && i < Identifiers(q) && AllAnswered(0, i, replies) && 1 + |Records(q, i, replies)| <= capacity
    && !(replies(i).code.Ok? && 1 + |Records(q, i + 1, replies)| <= capacity)
  }

  function FailureAt(q: seq<byte>, i: nat, capacity: u16, replies: Replies): byte
    requires i < Identifiers(q)
  {
    if 3 + |Records(q, i, replies)| > capacity then 0x14
    else if !replies(i).code.Ok? then Nrc(replies(i).code)
    else 0x14
  }

  lemma {:induction false} ReadFromFails(q: seq<byte>, i: nat, k: nat, capacity: u16, replies: Replies)
    requires q != [] && i <= k && FailsAt(q, k, capacity, replies) && 1 + |Records(q, i, replies)| <= capacity
    ensures ReadFrom(q, i, [0x62] + Records(q, i, replies), capacity, replies)
              == Refused(FailureAt(q, k, capacity, replies))
    decreases k - i
  {
    var done := [0x62] + Records(q, i, replies);
    hide Nrc;
    if i < k {
      RecordsGrow(q, i + 1, k, replies);
      assert done + Identifier(q, i) + replies(i).value == [0x62] + Records(q, i + 1, replies);
      ReadFromFails(q, i + 1, k, capacity, replies);
    }
  }

  /** A request for data that fails is refused for its first failure; a malformed one for its length. */
  lemma ReadRefusedExactly(s: Server, q: seq<byte>, capacity: u16, now: u32, replies: Replies)
    requires Heard(q, capacity) && capacity >= 3 && q[0] == 0x22
    ensures var o := Handle(s, q, capacity, now, replies);
            var wellFormed := |q| >= 3 && |q| % 2 == 1 && 0x22 in s.installed;
            && (!wellFormed ==> o.code.Ok? && o.response == [0x7F, 0x22, 0x13])
            && (wellFormed ==>
                  forall k: nat :: FailsAt(q, k, capacity, replies) ==>
                    o.code.Ok? && o.response == [0x7F, 0x22, FailureAt(q, k, capacity, replies)])
  {
    if ReadWellFormed(s, q) {
      forall k: nat | FailsAt(q, k, capacity, replies)
        ensures ReadFrom(q, 0, [0x62], capacity, replies) == Refused(FailureAt(q, k, capacity, replies))
      {
        assert [0x62] + Records(q, 0, replies) == [0x62];
        ReadFromFails(q, 0, k, capacity, replies);
      }
    }
  }

  /** The identifiers come back as they were asked for: without values, the reply is the request's own bytes. */
  lemma {:induction false} RecordsEchoRequest(q: seq<byte>, n: nat, replies: Replies)
    requires n <= Identifiers(q) && forall i :: 0 <= i < n ==> replies(i).value == []
    ensures Records(q, n, replies) == if n == 0 then [] else q[1..1 + 2 * n]
  {
    if n > 0 {
      RecordsEchoRequest(q, n - 1, replies);
    }
  }
}
