/**
 * The diagnostic server: one request in, at most one response out. What a callback answers is an input;
 * everything else the server does with a request is spelled out service by service.
 */
module UdsServer {
  import opened Words

  const MAX_REQUEST: nat := 4095
  const P2_MS: u16 := 50
  const P2_STAR_MS: u16 := 5000
  const S3_MS: u32 := 5000

  datatype Code =
    | Ok | NoResponse | NotSupported | Denied | OutOfRange | Busy | SequenceError | InvalidKey | AttemptsExceeded
    | DelayActive | ProgrammingFailure | ResponseTooLong | Error

  /** The negative response code that reports a callback's failure. */
  function Nrc(c: Code): byte {
    match c
    case NotSupported => 0x11
    case OutOfRange => 0x31
    case Busy => 0x21
    case SequenceError => 0x24
    case InvalidKey => 0x35
    case AttemptsExceeded => 0x36
    case DelayActive => 0x37
    case ProgrammingFailure => 0x72
    case ResponseTooLong => 0x14
    case _ => 0x22
  }

  /** What a callback leaves behind: its result, the bytes it claims to have put at its window, a block length. */
  datatype Reply = Reply(code: Code, value: seq<byte>, blockLength: u16)

  /** The answers of the callbacks to one request, in the order the server makes the calls. */
  type Replies = nat -> Reply

  /** `installed` holds the services whose callbacks are there. */
  datatype Server = Server(installed: set<byte>, session: byte, securityLevel: byte, nextBlock: byte, maxBlock: u16,
                           lastActivityMs: u32, downloadActive: bool, resetPending: bool, dtcSetting: bool)

  /** `response` is the response to send; it is empty unless the code is Ok. */
  datatype Outcome = Outcome(server: Server, code: Code, response: seq<byte>)

  function Init(installed: set<byte>, now: u32): Server {
    Server(installed, 1, 0, 1, 0, now, false, false, true)
  }

  function Positive(s: Server, response: seq<byte>): Outcome {
    Outcome(s, Ok, response)
  }

  function Negative(s: Server, service: byte, nrc: byte, capacity: u16): Outcome {
    if capacity < 3 then Outcome(s, ResponseTooLong, []) else Outcome(s, Ok, [0x7F, service, nrc])
  }

  /** The response, or silence when the client asked for it, or 0x14 when it does not fit. */
  function Confirmed(s: Server, service: byte, suppressed: bool, response: seq<byte>, capacity: u16): Outcome {
    if suppressed then Outcome(s, NoResponse, [])
    else if capacity < |response| then Negative(s, service, 0x14, capacity)
    else Positive(s, response)
  }

  /** A header followed by the callback's bytes, if they fit; the room left is a 16-bit difference. */
  function Extended(s: Server, service: byte, header: seq<byte>, r: Reply, capacity: u16): Outcome {
    if !r.code.Ok? then Negative(s, service, Nrc(r.code), capacity)
    else if (capacity - |header|) % 0x1_0000 < |r.value| then Negative(s, service, 0x14, capacity)
    else Positive(s, header + r.value)
  }

  function SessionControl(s: Server, q: seq<byte>, capacity: u16): Outcome
    requires q != []
  {
    if |q| != 2 then Negative(s, q[0], 0x13, capacity)
    else if q[1] % 0x80 !in {1, 2, 3} then Negative(s, q[0], 0x12, capacity)
    else
      Confirmed(s.(session := q[1] % 0x80, securityLevel := 0), q[0], q[1] >= 0x80,
                [0x50, q[1] % 0x80, P2_MS / 256, P2_MS % 256, P2_STAR_MS / 10 / 256, P2_STAR_MS / 10 % 256], capacity)
  }

  function EcuReset(s: Server, q: seq<byte>, capacity: u16, r: Reply): Outcome
    requires q != []
  {
    if |q| != 2 then Negative(s, q[0], 0x13, capacity)
    else if q[1] % 0x80 != 1 || 0x11 !in s.installed then Negative(s, q[0], 0x12, capacity)
    else if !r.code.Ok? then Negative(s, q[0], Nrc(r.code), capacity)
    else Confirmed(s.(resetPending := true), q[0], q[1] >= 0x80, [0x51, q[1] % 0x80], capacity)
  }

  function ReadDtc(s: Server, q: seq<byte>, capacity: u16, r: Reply): Outcome
    requires q != []
  {
    if |q| < 2 || 0x19 !in s.installed then Negative(s, q[0], 0x13, capacity)
    else Extended(s, q[0], [0x59], r, capacity)
  }

  // -------------------------------------------------- read data by identifier

  datatype Reading = Refused(nrc: byte) | Given(response: seq<byte>)

  predicate ReadWellFormed(s: Server, q: seq<byte>) {
    |q| >= 3 && |q| % 2 == 1 && 0x22 in s.installed
  }

  /** How many identifiers a request names, and the bytes of the i-th. */
  function Identifiers(q: seq<byte>): nat {
    if q == [] then 0 else (|q| - 1) / 2
  }

  function Identifier(q: seq<byte>, i: nat): seq<byte>
    requires i < Identifiers(q)
  {
    q[1 + 2 * i..3 + 2 * i]
  }

  /** The loop over the identifiers from the i-th on, with `done` already in the buffer. */
  function ReadFrom(q: seq<byte>, i: nat, done: seq<byte>, capacity: u16, replies: Replies): Reading
    requires i <= Identifiers(q)
    decreases Identifiers(q) - i
  {
    if i == Identifiers(q) then Given(done)
    else if capacity - |done| < 2 then Refused(0x14)
    else if !replies(i).code.Ok? then Refused(Nrc(replies(i).code))
    else if capacity - |done| - 2 < |replies(i).value| then Refused(0x14)
    else ReadFrom(q, i + 1, done + Identifier(q, i) + replies(i).value, capacity, replies)
  }

  function ReadData(s: Server, q: seq<byte>, capacity: u16, replies: Replies): Outcome
    requires q != []
  {
    if !ReadWellFormed(s, q) then Negative(s, q[0], 0x13, capacity)
    else
      match ReadFrom(q, 0, [0x62], capacity, replies)
      case Refused(nrc) => Negative(s, q[0], nrc, capacity)
      case Given(response) => Positive(s, response)
  }

  // ------------------------------------------------------------ other services

  function SecuritySeed(s: Server, q: seq<byte>, capacity: u16, r: Reply): Outcome
    requires |q| >= 2
  {
    var length := (2 + |r.value|) % 0x1_0000;
    if !r.code.Ok? then Negative(s, q[0], Nrc(r.code), capacity)
    else if capacity < length then Negative(s, q[0], 0x14, capacity)
    else Positive(s, ([0x67, q[1]] + r.value)[..length])
  }

  function SecurityKey(s: Server, q: seq<byte>, capacity: u16, r: Reply): Outcome
    requires |q| >= 2 && q[1] <= 0x7F
  {
    if |q| <= 2 then Negative(s, q[0], 0x13, capacity)
    else if !r.code.Ok? then Negative(s, q[0], Nrc(r.code), capacity)
    else Confirmed(s.(securityLevel := (q[1] + 1) / 2), q[0], false, [0x67, q[1]], capacity)
  }

  function SecurityAccess(s: Server, q: seq<byte>, capacity: u16, r: Reply): Outcome
    requires q != []
  {
    if |q| < 2 || 0x27 !in s.installed then Negative(s, q[0], 0x11, capacity)
    else if q[1] == 0 || q[1] > 0x7F then Negative(s, q[0], 0x12, capacity)
    else if q[1] % 2 == 1 then SecuritySeed(s, q, capacity, r)
    else SecurityKey(s, q, capacity, r)
  }

  function CommunicationControl(s: Server, q: seq<byte>, capacity: u16, r: Reply): Outcome
    requires q != []
  {
    if |q| != 3 || 0x28 !in s.installed then Negative(s, q[0], 0x13, capacity)
    else if !r.code.Ok? then Negative(s, q[0], Nrc(r.code), capacity)
    else Confirmed(s, q[0], q[1] >= 0x80, [0x68, q[1] % 0x80, q[2]], capacity)
  }

  function RoutineControl(s: Server, q: seq<byte>, capacity: u16, r: Reply): Outcome
    requires q != []
  {
    if |q| < 4 || 0x31 !in s.installed then Negative(s, q[0], 0x13, capacity)
    else Extended(s, q[0], [0x71, q[1] % 0x80, q[2], q[3]], r, capacity)
  }

  function TesterPresent(s: Server, q: seq<byte>, capacity: u16): Outcome
    requires q != []
  {
    if |q| != 2 then Negative(s, q[0], 0x13, capacity)
    else if q[1] % 0x80 != 0 then Negative(s, q[0], 0x12, capacity)
    else Confirmed(s, q[0], q[1] >= 0x80, [0x7E, q[1]], capacity)
  }

  function DtcSetting(s: Server, q: seq<byte>, capacity: u16, r: Reply): Outcome
    requires q != []
  {
    if |q| != 2 || 0x85 !in s.installed then Negative(s, q[0], 0x13, capacity)
    else if q[1] % 0x80 !in {1, 2} then Negative(s, q[0], 0x12, capacity)
    else if !r.code.Ok? then Negative(s, q[0], Nrc(r.code), capacity)
    else Confirmed(s.(dtcSetting := q[1] % 0x80 == 1), q[0], q[1] >= 0x80, [0xC5, q[1] % 0x80], capacity)
  }

  // ----------------------------------------------------------------- download

  /** A big-endian number of up to four bytes. */
  function BigEndian(bytes: seq<byte>): (n: nat)
    ensures |bytes| <= 4 ==> n < TWO_32
    ensures |bytes| <= 3 ==> n < 0x100_0000
    ensures |bytes| <= 2 ==> n < 0x1_0000
    ensures |bytes| <= 1 ==> n < 0x100
  {
    if bytes == [] then 0 else BigEndian(bytes[..|bytes| - 1]) * 256 + bytes[|bytes| - 1]
  }

  /** The loop that reads such a number in a 32-bit word. */
  method ReadBigEndian(bytes: seq<byte>) returns (value: u32)
    requires |bytes| <= 4
    ensures value == BigEndian(bytes)
  {
    value := 0;
    for index := 0 to |bytes|
      invariant value == BigEndian(bytes[..index])
    {
      assert bytes[..index + 1][..index] == bytes[..index];
      value := (value * 256 + bytes[index]) % TWO_32;
    }
    assert bytes[..|bytes|] == bytes;
  }

  /** Four bytes, the most significant first, are read back as the word they were taken from. */
  lemma BigEndianReadsBack(n: u32)
    ensures BigEndian([n / 0x100_0000, n / 0x1_0000 % 256, n / 256 % 256, n % 256]) == n
  {
    UpperParts(n);
    var h := n / 256;
    var a, b, c, d := h / 256 / 256, h / 256 % 256, h % 256, n % 256;
    assert [a, b, c, d][..3] == [a, b, c] && [a, b, c][..2] == [a, b] && [a, b][..1] == [a] && [a][..0] == [];
    assert BigEndian([a]) == a;
    assert BigEndian([a, b]) == h / 256;
    assert BigEndian([a, b, c]) == h;
  }

  /** The call the server makes below, if the request gets that far. */
  datatype Call =
    | RequestDownload(address: u32, length: u32)
    | TransferData(block: byte, data: seq<byte>)
    | TransferExit(parameters: seq<byte>)

  predicate DownloadWellFormed(q: seq<byte>) {
    && |q| >= 3
    && 1 <= q[1] / 16 <= 4 && 1 <= q[1] % 16 <= 4
    && |q| == 2 + q[1] as nat / 16 + q[1] as nat % 16
  }

  function DownloadCall(q: seq<byte>): Call
    requires DownloadWellFormed(q)
  {
    var split := 2 + q[1] as nat / 16;
    RequestDownload(BigEndian(q[2..split]), BigEndian(q[split..]))
  }

  function RequestDownloadService(s: Server, q: seq<byte>, capacity: u16, r: Reply): Outcome
    requires q != []
  {
    if 0x34 !in s.installed || !DownloadWellFormed(q) then Negative(s, q[0], 0x13, capacity)
    else if !r.code.Ok? then Negative(s, q[0], Nrc(r.code), capacity)
    else if r.blockLength < 3 || capacity < 4 then Negative(s, q[0], 0x70, capacity)
    else
      Positive(s.(downloadActive := true, nextBlock := 1, maxBlock := r.blockLength),
               [0x74, 0x20, r.blockLength / 256, r.blockLength % 256])
  }

  /** Why a block is turned away before anything below hears of it, or None. */
  function TransferRefusal(s: Server, q: seq<byte>): Option<byte> {
    if |q| < 3 || !s.downloadActive || 0x36 !in s.installed then Some(0x24)
    else if q[1] != s.nextBlock then Some(0x73)
    else if |q| - 2 > (s.maxBlock - 2) % 0x1_0000 then Some(0x13)
    else None
  }

  function TransferDataService(s: Server, q: seq<byte>, capacity: u16, r: Reply): Outcome
    requires q != []
  {
    var refusal := TransferRefusal(s, q);
    if refusal.Some? then Negative(s, q[0], refusal.value, capacity)
    else if !r.code.Ok? then Negative(s, q[0], Nrc(r.code), capacity)
    else Confirmed(s.(nextBlock := (s.nextBlock + 1) % 256), q[0], false, [0x76, q[1]], capacity)
  }

  /** The length the callback reports is trusted here: nothing checks it against the capacity. */
  function TransferExitService(s: Server, q: seq<byte>, capacity: u16, r: Reply): Outcome
    requires q != []
  {
    if !s.downloadActive || 0x37 !in s.installed then Negative(s, q[0], 0x24, capacity)
    else if !r.code.Ok? then Negative(s, q[0], Nrc(r.code), capacity)
    else Positive(s.(downloadActive := false), ([0x77] + r.value)[..(1 + |r.value|) % 0x1_0000])
  }

  function Forwarded(s: Server, q: seq<byte>): Option<Call> {
    if q == [] || |q| > MAX_REQUEST || q[0] !in s.installed then None
    else if q[0] == 0x34 then (if DownloadWellFormed(q) then Some(DownloadCall(q)) else None)
    else if q[0] == 0x36 then
      (if TransferRefusal(s, q).None? then Some(TransferData(q[1], q[2..])) else None)
    else if q[0] == 0x37 then (if s.downloadActive then Some(TransferExit(q[1..])) else None)
    else None
  }

  // ----------------------------------------------------------------- dispatch

  function DownloadServices(s: Server, q: seq<byte>, capacity: u16, r: Reply): Outcome
    requires q != []
  {
    if q[0] == 0x34 then RequestDownloadService(s, q, capacity, r)
    else if q[0] == 0x36 then TransferDataService(s, q, capacity, r)
    else TransferExitService(s, q, capacity, r)
  }

  function OtherServices(s: Server, q: seq<byte>, capacity: u16, replies: Replies): Outcome
    requires q != []
  {
    match q[0]
    case 0x10 => SessionControl(s, q, capacity)
    case 0x11 => EcuReset(s, q, capacity, replies(0))
    case 0x19 => ReadDtc(s, q, capacity, replies(0))
    case 0x22 => ReadData(s, q, capacity, replies)
    case 0x27 => SecurityAccess(s, q, capacity, replies(0))
    case 0x28 => CommunicationControl(s, q, capacity, replies(0))
    case 0x31 => RoutineControl(s, q, capacity, replies(0))
    case 0x3E => TesterPresent(s, q, capacity)
    case 0x85 => DtcSetting(s, q, capacity, replies(0))
    case _ => Negative(s, q[0], 0x11, capacity)
  }

  function Handle(s: Server, q: seq<byte>, capacity: u16, now: u32, replies: Replies): Outcome {
    if capacity == 0 || q == [] || |q| > MAX_REQUEST then Outcome(s, Error, [])
    else if q[0] in {0x34, 0x36, 0x37} then DownloadServices(s.(lastActivityMs := now), q, capacity, replies(0))
    else OtherServices(s.(lastActivityMs := now), q, capacity, replies)
  }

  /** The session timer S3. */
  function Tick(s: Server, now: u32): (Server, Code) {
    if Expired(now, Add32(s.lastActivityMs, S3_MS)) then
      (s.(session := 1, securityLevel := 0, downloadActive := false, nextBlock := 1), Busy)
    else
      (s, Ok)
  }

  // --------------------------------------------------- response accounting

  /** A response that may be sent: it fits, and it is either positive or the three bytes of a refusal. */
  predicate Proper(o: Outcome, service: byte, capacity: u16) {
    && (o.code.Ok? ==> |o.response| <= capacity && (Acknowledges(o, service) || Refuses(o, service)))
    && (!o.code.Ok? ==> o.response == [] && (o.code.NoResponse? || (o.code.ResponseTooLong? && capacity < 3)))
  }

  predicate Acknowledges(o: Outcome, service: byte) {
    o.code.Ok? && o.response != [] && o.response[0] == service as int + 0x40
  }

  predicate Refuses(o: Outcome, service: byte) {
    o.code.Ok? && |o.response| == 3 && o.response[..2] == [0x7F, service]
  }

  /**
   * What the callbacks owe the server: the length of the exit parameters is not checked at all, and the one
   * seed length 0xFFFE makes a response of no bytes. Every other 16-bit length may be anything.
   */
  predicate Respects(q: seq<byte>, capacity: u16, r: Reply)
    requires q != []
  {
    && (q[0] == 0x27 ==> |r.value| <= 0xFFFF && |r.value| != 0xFFFE)
    && (q[0] == 0x37 ==> |r.value| + 1 <= capacity)
  }

  /** What the caller owes the server: a routine request writes four bytes before anything is checked. */
  predicate RoomForHeader(s: Server, q: seq<byte>, capacity: u16) {
    q != [] && q[0] == 0x31 && |q| >= 4 && 0x31 in s.installed ==> capacity >= 4
  }

  /**
   * What keeps the server inside the buffer: room for a routine header and for the two bytes of a seed response
   * whose length has wrapped, and an exit reply that fits or wraps.
   */
  predicate StaysInside(s: Server, q: seq<byte>, capacity: u16, r: Reply) {
    && RoomForHeader(s, q, capacity)
    && (q != [] && q[0] == 0x27 ==> |r.value| <= 0xFFFF && (|r.value| >= 0xFFFE ==> capacity >= 2))
    && (q != [] && q[0] == 0x37 ==> |r.value| + 1 <= capacity || |r.value| == 0xFFFF)
  }

  lemma SimpleServicesAreProper(s: Server, q: seq<byte>, capacity: u16, r: Reply)
    requires q != [] && capacity >= 1
    ensures q[0] == 0x10 ==> Proper(SessionControl(s, q, capacity), q[0], capacity)
    ensures q[0] == 0x11 ==> Proper(EcuReset(s, q, capacity, r), q[0], capacity)
    ensures q[0] == 0x28 ==> Proper(CommunicationControl(s, q, capacity, r), q[0], capacity)
    ensures q[0] == 0x3E ==> Proper(TesterPresent(s, q, capacity), q[0], capacity)
    ensures q[0] == 0x85 ==> Proper(DtcSetting(s, q, capacity, r), q[0], capacity)
  {
  }

  lemma ExtendedServicesAreProper(s: Server, q: seq<byte>, capacity: u16, r: Reply)
    requires q != [] && capacity >= 1 && Respects(q, capacity, r) && RoomForHeader(s, q, capacity)
    ensures q[0] == 0x19 ==> Proper(ReadDtc(s, q, capacity, r), q[0], capacity)
    ensures q[0] == 0x27 ==> Proper(SecurityAccess(s, q, capacity, r), q[0], capacity)
    ensures q[0] == 0x31 ==> Proper(RoutineControl(s, q, capacity, r), q[0], capacity)
  {
  }

  lemma DownloadServicesAreProper(s: Server, q: seq<byte>, capacity: u16, r: Reply)
    requires q != [] && capacity >= 1 && Respects(q, capacity, r) && q[0] in {0x34, 0x36, 0x37}
    ensures Proper(DownloadServices(s, q, capacity, r), q[0], capacity)
  {
  }

  lemma {:induction false} ReadFromFits(q: seq<byte>, i: nat, done: seq<byte>, capacity: u16, replies: Replies)
    requires i <= Identifiers(q) && 1 <= |done| <= capacity
    ensures var r := ReadFrom(q, i, done, capacity, replies);
            r.Given? ==> |done| <= |r.response| <= capacity && r.response[..|done|] == done
    decreases Identifiers(q) - i
  {
    if i < Identifiers(q) && capacity - |done| - 2 >= |replies(i).value| && replies(i).code.Ok? {
      var next := done + Identifier(q, i) + replies(i).value;
      ReadFromFits(q, i + 1, next, capacity, replies);
      assert next[..|done|] == done;
    }
  }

  lemma ReadDataIsProper(s: Server, q: seq<byte>, capacity: u16, replies: Replies)
    requires q != [] && capacity >= 1 && q[0] == 0x22
    ensures Proper(ReadData(s, q, capacity, replies), q[0], capacity)
  {
    if ReadWellFormed(s, q) {
      ReadFromFits(q, 0, [0x62], capacity, replies);
    }
  }

  /**
   * Response accounting. Whatever the request, the buffer and the callbacks' answers, as long as a routine
   * request finds room for its header and callbacks respect what is not checked: the server reports an error
   * exactly on an empty buffer or a request of no or too many bytes; otherwise it stays silent, or cannot even
   * refuse in less than three bytes, or hands out a response that fits the buffer and is either positive or
   * exactly 7F, the service and one code.
   */
  lemma ResponseAccounting(s: Server, q: seq<byte>, capacity: u16, now: u32, replies: Replies)
    requires RoomForHeader(s, q, capacity)
    requires q != [] ==> Respects(q, capacity, replies(0))
    ensures var o := Handle(s, q, capacity, now, replies);
            && (o.code.Error? <==> capacity == 0 || q == [] || |q| > MAX_REQUEST)
            && (!o.code.Error? ==> Proper(o, q[0], capacity))
  {
    if capacity != 0 && q != [] && |q| <= MAX_REQUEST {
      var s' := s.(lastActivityMs := now);
      if q[0] in {0x34, 0x36, 0x37} {
        DownloadServicesAreProper(s', q, capacity, replies(0));
      } else {
        OtherServicesAreProper(s', q, capacity, replies);
      }
    }
  }

  lemma OtherServicesAreProper(s: Server, q: seq<byte>, capacity: u16, replies: Replies)
    requires q != [] && capacity >= 1 && Respects(q, capacity, replies(0)) && q[0] !in {0x34, 0x36, 0x37}
    requires RoomForHeader(s, q, capacity)
    ensures Proper(OtherServices(s, q, capacity, replies), q[0], capacity)
  {
    if q[0] == 0x22 {
      ReadDataIsProper(s, q, capacity, replies);
    } else if q[0] in {0x19, 0x27, 0x31} {
      ExtendedServicesAreProper(s, q, capacity, replies(0));
    } else if q[0] in {0x10, 0x11, 0x28, 0x3E, 0x85} {
      SimpleServicesAreProper(s, q, capacity, replies(0));
    }
  }

  /**
   * An exit response fits the buffer exactly when the callback respected its capacity, or reported the one
   * length, 0xFFFF, at which the response length wraps to zero.
   */
  lemma ExitResponseFitsExactly(s: Server, q: seq<byte>, capacity: u16, now: u32, replies: Replies)
    requires q != [] && |q| <= MAX_REQUEST && q[0] == 0x37 && 0x37 in s.installed && s.downloadActive
    requires capacity >= 1 && replies(0).code.Ok? && |replies(0).value| <= 0xFFFF
    ensures |Handle(s, q, capacity, now, replies).response| <= capacity
       <==> Respects(q, capacity, replies(0)) || |replies(0).value| == 0xFFFF
  {
  }

  /**
   * A seed that is handed out makes a proper response, or is properly refused, exactly unless its length is
   * 0xFFFE, at which the response length wraps to zero; at 0xFFFF it wraps to the service byte alone.
   */
  lemma SeedIsProperExactly(s: Server, q: seq<byte>, capacity: u16, now: u32, replies: Replies)
    requires 2 <= |q| <= MAX_REQUEST && q[0] == 0x27 && 0x27 in s.installed && q[1] <= 0x7F && q[1] % 2 == 1
    requires capacity >= 1 && replies(0).code.Ok? && |replies(0).value| <= 0xFFFF
    ensures Proper(Handle(s, q, capacity, now, replies), 0x27, capacity) <==> |replies(0).value| != 0xFFFE
  {
  }

  /**
   * A routine request that gets as far as its callback fits the buffer exactly when the buffer has the four
   * bytes of the header: with less, the 16-bit difference wraps and any length passes.
   */
  lemma RoutineNeedsFourBytes(s: Server, q: seq<byte>, capacity: u16, now: u32, replies: Replies)
    requires 4 <= |q| <= MAX_REQUEST && q[0] == 0x31 && 0x31 in s.installed
    requires capacity >= 1 && replies(0).code.Ok? && |replies(0).value| <= 0xFFFC
    ensures |Handle(s, q, capacity, now, replies).response| <= capacity <==> capacity >= 4
  {
  }

  // --------------------------------------------- reading data by identifier

  /** The first n identifiers of the request, each followed by its value. */
  function Records(q: seq<byte>, n: nat, replies: Replies): seq<byte>
    requires n <= Identifiers(q)
  {
    if n == 0 then [] else Records(q, n - 1, replies) + Identifier(q, n - 1) + replies(n - 1).value
  }

  predicate AllAnswered(from: nat, to: nat, replies: Replies) {
    forall i :: from <= i < to ==> replies(i).code.Ok?
  }

  lemma {:induction false} RecordsGrow(q: seq<byte>, n: nat, m: nat, replies: Replies)
    requires n <= m <= Identifiers(q)
    ensures |Records(q, n, replies)| <= |Records(q, m, replies)|
    decreases m
  {
    if n < m {
      RecordsGrow(q, n, m - 1, replies);
    }
  }

  lemma {:induction false} ReadFromExactly(q: seq<byte>, i: nat, capacity: u16, replies: Replies)
    requires i <= Identifiers(q) && 1 + |Records(q, i, replies)| <= capacity
    ensures var n := Identifiers(q);
            var r := ReadFrom(q, i, [0x62] + Records(q, i, replies), capacity, replies);
            && (r.Given? <==> AllAnswered(i, n, replies) && 1 + |Records(q, n, replies)| <= capacity)
            && (r.Given? ==> r.response == [0x62] + Records(q, n, replies))
    decreases Identifiers(q) - i
  {
    var n := Identifiers(q);
    var done := [0x62] + Records(q, i, replies);
    if i < n {
      RecordsGrow(q, i + 1, n, replies);
      if replies(i).code.Ok? && capacity - |done| - 2 >= |replies(i).value| {
        var next := done + Identifier(q, i) + replies(i).value;
        assert next == [0x62] + Records(q, i + 1, replies);
        ReadFromExactly(q, i + 1, capacity, replies);
      }
    }
  }

  /**
   * A request for data gets a positive reply exactly when it is well formed, every callback answered and
   * the whole reply fits; and then it is 0x62 followed by each requested identifier with its value, in
   * the order of the request.
   */
  lemma ReadDataExactly(s: Server, q: seq<byte>, capacity: u16, now: u32, replies: Replies)
    requires q != [] && |q| <= MAX_REQUEST && q[0] == 0x22
    ensures var o := Handle(s, q, capacity, now, replies);
            var n := Identifiers(q);
            && (Acknowledges(o, 0x22) <==>
                  ReadWellFormed(s, q) && AllAnswered(0, n, replies) && 1 + |Records(q, n, replies)| <= capacity)
            && (Acknowledges(o, 0x22) ==> o.response == [0x62] + Records(q, n, replies))
  {
    if ReadWellFormed(s, q) && capacity > 0 {
      assert [0x62] + Records(q, 0, replies) == [0x62];
      ReadFromExactly(q, 0, capacity, replies);
    }
  }
}
