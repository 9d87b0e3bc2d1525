/**
 * Firmware download below the diagnostic server: one image at a time is erased, received block by block,
 * programmed, checked and marked for activation. The outcome of every memory callback is an input.
 */
module UdsDownload {
  import opened Words
  import opened Crc32

  const MAX_CHUNK: nat := 256
  const TIMEOUT_MS: u32 := 5000

  datatype Phase = Idle | Erasing | Receiving | Complete | Aborted

  datatype Result =
    | Ok | Busy | InvalidArgument | NotReady | OutOfRange | AlignmentError | Overflow | SequenceError
    | ProgramError | EraseError | VerifyError | Timeout | AbortedResult

  datatype Region = Region(start: u32, end: u32) {
    ghost predicate Has(x: int) {
      start <= x < end
    }
  }

  datatype MemoryMap = MemoryMap(staging: Region, bootloader: Region, active: Region, nvm: Region, diagnostic: Region,
                                 eraseAlignment: u32, programAlignment: u32, maxBlock: u16, activationSupported: bool)
  {
    /** Memory that belongs to someone else. */
    ghost predicate Protects(x: int) {
      bootloader.Has(x) || active.Has(x) || nvm.Has(x) || diagnostic.Has(x)
    }
  }

  /** One successful call of the program callback. */
  datatype Program = Program(address: int, data: seq<bv8>)

  /**
   * The download object, with the history of one image: the program calls that succeeded since the image
   * was begun, and the checksum the client finally asked for.
   */
  datatype Download = Download(memory: MemoryMap, hasCallbacks: bool, phase: Phase, begun: bool,
                               imageAddress: u32, imageLength: u32, received: u32, crcValid: bool,
                               activationPending: bool, expectedBlock: byte, deadlineMs: u32, crc: bv32,
                               programs: seq<Program>, promised: Option<bv32>)

  function Init(memory: MemoryMap, hasCallbacks: bool): Download {
    Download(memory, hasCallbacks, Idle, false, 0, 0, 0, false, false, 1, 0, INITIAL, [], None)
  }

  // --------------------------------------------------------------- geometry

  /** `length <= end - address` in unsigned 32-bit arithmetic, as the source has it. */
  predicate RangeInside(r: Region, address: u32, length: u32) {
    length != 0 && address >= r.start && r.end >= r.start && length <= Sub32(r.end, address)
  }

  predicate Aligned(value: u32, alignment: u32) {
    alignment != 0 && value % alignment == 0
  }

  predicate Overlaps(l: Region, r: Region) {
    l.start < r.end && r.start < l.end
  }

  predicate RangeAccepted(m: MemoryMap, address: u32, length: u32) {
    var image := Region(address, Add32(address, length));
    && length != 0 && image.end >= address
    && RangeInside(m.staging, address, length)
    && !Overlaps(image, m.bootloader) && !Overlaps(image, m.active)
    && !Overlaps(image, m.nvm) && !Overlaps(image, m.diagnostic)
  }

  predicate AlignmentAccepted(m: MemoryMap, address: u32, length: u32) {
    && Aligned(address, m.eraseAlignment) && Aligned(length, m.eraseAlignment)
    && Aligned(address, m.programAlignment)
  }

  // -------------------------------------------------------------- operations

  /** Why a download must not begin here, or Ok. */
  function BeginCheck(m: MemoryMap, hasCallbacks: bool, address: u32, length: u32): Result {
    if !hasCallbacks then InvalidArgument
    else if !RangeAccepted(m, address, length) then OutOfRange
    else if !AlignmentAccepted(m, address, length) then AlignmentError
    else if m.maxBlock < 3 || m.maxBlock > MAX_CHUNK then InvalidArgument
    else Ok
  }

  /** The record of an image whose erasure has just begun. */
  function Opened(d: Download, address: u32, length: u32, now: u32): Download {
    Download(d.memory, d.hasCallbacks, Erasing, true, address, length, 0, false, false, 1,
             Add32(now, TIMEOUT_MS), INITIAL, [], None)
  }

  function Begin(d: Download, address: u32, length: u32, now: u32, erase: Result): (Download, Result) {
    var check := BeginCheck(d.memory, d.hasCallbacks, address, length);
    if !check.Ok? then (d, check)
    else if !erase.Ok? then (d, erase)
    else (Opened(d, address, length, now), Ok)
  }

  function Abort(d: Download): Download {
    d.(phase := Aborted, activationPending := false)
  }

  function PollErase(d: Download, now: u32, poll: Result): (Download, Result) {
    if !d.phase.Erasing? then (d, NotReady)
    else if Expired(now, d.deadlineMs) then (Abort(d), Timeout)
    else if poll.Ok? then (d.(phase := Receiving, deadlineMs := Add32(now, TIMEOUT_MS)), Ok)
    else (d, poll)
  }

  /** The block has gone into memory behind the bytes received so far. */
  function Programmed(d: Download, data: seq<bv8>, now: u32): Download
    requires |data| <= d.imageLength - d.received
  {
    d.(received := d.received + |data|,
       crc := Update(d.crc, data),
       expectedBlock := (d.expectedBlock + 1) % 256,
       deadlineMs := Add32(now, TIMEOUT_MS),
       programs := d.programs + [Program(Add32(d.imageAddress, d.received), data)])
  }

  function Write(d: Download, block: byte, data: seq<bv8>, now: u32, program: Result): (Download, Result)
    requires Ready(d)
  {
    if |data| == 0 || |data| > MAX_CHUNK || !d.phase.Receiving? then (d, NotReady)
    else if Expired(now, d.deadlineMs) then (Abort(d), Timeout)
    else if block != d.expectedBlock then (d, SequenceError)
    else if |data| > d.imageLength - d.received then (d, Overflow)
    else if d.received % d.memory.programAlignment != 0 || |data| % d.memory.programAlignment != 0 then
      (d, AlignmentError)
    else if !program.Ok? then (d, ProgramError)
    else (Programmed(d, data, now), Ok)
  }

  function Finish(d: Download, expected: Option<bv32>, now: u32, verify: Result): (Download, Result) {
    if !d.phase.Receiving? || d.received != d.imageLength then (d, NotReady)
    else if Expired(now, d.deadlineMs) then (Abort(d), Timeout)
    else if expected.Some? && Final(d.crc) != expected.value then (Abort(d.(crcValid := false)), VerifyError)
    else if !verify.Ok? then (Abort(d.(crcValid := true)), verify)
    else
      (d.(phase := Complete, crcValid := true, activationPending := !d.memory.activationSupported,
          promised := expected),
       Ok)
  }

  function Tick(d: Download, now: u32): (Download, Result) {
    if d.phase.Idle? || d.phase.Complete? || d.phase.Aborted? then (d, Ok)
    else if Expired(now, d.deadlineMs) then (Abort(d), Timeout)
    else (d, Ok)
  }

  // --------------------------------------------------------------- invariant

  /** The state every operation may rely on: what divides by the alignment, and how far reception went. */
  predicate Ready(d: Download) {
    d.phase.Receiving? ==> d.memory.programAlignment > 0 && d.received <= d.imageLength
  }

  /** The bytes programmed so far, in order. */
  function Written(ps: seq<Program>): seq<bv8> {
    if ps == [] then [] else Written(ps[..|ps| - 1]) + ps[|ps| - 1].data
  }

  /** The calls lie end to end from `address` on, none of them empty, each at an aligned address. */
  ghost predicate Tiles(ps: seq<Program>, address: int, alignment: int)
    requires alignment > 0
  {
    ps == [] ||
    var n := |ps| - 1;
    && Tiles(ps[..n], address, alignment)
    && ps[n].data != []
    && ps[n].address == address + |Written(ps[..n])|
    && ps[n].address % alignment == 0
  }

  ghost predicate Placed(d: Download) {
    && Ready(d)
    && (d.activationPending ==> d.phase.Complete?)
    && (if d.begun then
          && RangeAccepted(d.memory, d.imageAddress, d.imageLength)
          && AlignmentAccepted(d.memory, d.imageAddress, d.imageLength)
          && d.received == |Written(d.programs)| <= d.imageLength
          && Tiles(d.programs, d.imageAddress, d.memory.programAlignment)
          && (d.phase.Complete? ==> d.received == d.imageLength)
        else
          d.programs == [] && (d.phase.Idle? || d.phase.Aborted?))
  }

  /** The checksum register is `c`, and a checksum the client asked for was met. */
  ghost predicate SummedTo(d: Download, c: bv32) {
    && (d.begun ==> d.crc == c)
    && (d.phase.Complete? && d.promised.Some? ==> Final(d.crc) == d.promised.value)
    && (d.phase.Complete? || d.phase.Receiving? || d.phase.Erasing? ==> d.begun)
  }

  /** The checksum register covers the programmed bytes. */
  ghost predicate Summed(d: Download) {
    SummedTo(d, Update(INITIAL, Written(d.programs)))
  }

  /** An accepted image does not wrap around the address space. */
  lemma AcceptedDoesNotWrap(m: MemoryMap, address: u32, length: u32)
    requires RangeAccepted(m, address, length)
    ensures address + length < TWO_32
  {
  }

  /** No byte of an accepted image belongs to anyone else, whatever the memory map. */
  lemma AcceptedIsUnprotected(m: MemoryMap, address: u32, length: u32, x: int)
    requires RangeAccepted(m, address, length) && address <= x < address + length
    ensures !m.Protects(x)
  {
    AcceptedDoesNotWrap(m, address, length);
  }

  /** An accepted image lies inside the staging region exactly when it does not start past the region's end. */
  lemma AcceptedInsideStagingExactly(m: MemoryMap, address: u32, length: u32)
    requires RangeAccepted(m, address, length)
    ensures (forall x :: address <= x < address + length ==> m.staging.Has(x)) <==> address <= m.staging.end
  {
    AcceptedDoesNotWrap(m, address, length);
    if address > m.staging.end {
      assert !m.staging.Has(address);
    }
  }

  /** The subtraction wraps: an image wholly outside the staging region can be accepted. */
  lemma OutsideStagingCanBeAccepted()
    ensures exists m: MemoryMap, address: u32, length: u32 ::
              RangeAccepted(m, address, length) && AlignmentAccepted(m, address, length)
              && forall x :: address <= x < address + length ==> !m.staging.Has(x)
  {
    var empty := Region(0, 0);
    var m := MemoryMap(Region(0x1000, 0x2000), empty, empty, empty, empty, 4, 4, 256, false);
    assert RangeAccepted(m, 0x3000, 0x1000) && AlignmentAccepted(m, 0x3000, 0x1000);
  }

  // ------------------------------------------------------------------- runs

  datatype Action =
    | DoBegin(address: u32, length: u32, now: u32, erase: Result)
    | DoPoll(now: u32, poll: Result)
    | DoWrite(block: byte, data: seq<bv8>, now: u32, program: Result)
    | DoFinish(expected: Option<bv32>, now: u32, verify: Result)
    | DoTick(now: u32)
    | DoAbort

  function Step(d: Download, a: Action): Download
    requires Ready(d)
  {
    match a
    case DoBegin(address, length, now, erase) => Begin(d, address, length, now, erase).0
    case DoPoll(now, poll) => PollErase(d, now, poll).0
    case DoWrite(block, data, now, program) => Write(d, block, data, now, program).0
    case DoFinish(expected, now, verify) => Finish(d, expected, now, verify).0
    case DoTick(now) => Tick(d, now).0
    case DoAbort => Abort(d)
  }

  lemma OneMoreProgram(ps: seq<Program>, p: Program)
    ensures Written(ps + [p]) == Written(ps) + p.data
  {
    assert (ps + [p])[..|ps|] == ps;
  }

  lemma OneMoreTile(ps: seq<Program>, p: Program, address: int, alignment: int)
    requires alignment > 0 && Tiles(ps, address, alignment) && p.data != []
    requires p.address == address + |Written(ps)| && p.address % alignment == 0
    ensures Tiles(ps + [p], address, alignment)
  {
    assert (ps + [p])[..|ps|] == ps;
  }

  lemma SumIsAligned(address: nat, offset: nat, alignment: nat)
    requires alignment > 0 && address % alignment == 0 && offset % alignment == 0
    ensures (address + offset) % alignment == 0
  {
    var q, r := address / alignment, offset / alignment;
    assert address + offset == (q + r) * alignment;
    Remainder(address + offset, q + r, 0, alignment);
  }

  lemma WriteKeepsTiles(ps: seq<Program>, address: int, target: int, alignment: int, data: seq<bv8>)
    requires alignment > 0 && Tiles(ps, address, alignment) && data != []
    requires target == address + |Written(ps)| && target % alignment == 0
    ensures var ps' := ps + [Program(target, data)];
            Tiles(ps', address, alignment) && |Written(ps')| == |Written(ps)| + |data|
  {
    var p := Program(target, data);
    OneMoreProgram(ps, p);
    OneMoreTile(ps, p, address, alignment);
  }

  lemma AddFits(a: u32, b: u32)
    requires a + b < TWO_32
    ensures Add32(a, b) == a + b
  {
  }

  lemma WriteKeepsPlaced(d: Download, data: seq<bv8>, now: u32)
    requires Placed(d) && d.phase.Receiving? && data != [] && |data| <= d.imageLength - d.received
    requires d.begun && d.received % d.memory.programAlignment == 0
    ensures Placed(Programmed(d, data, now))
  {
    AcceptedDoesNotWrap(d.memory, d.imageAddress, d.imageLength);
    AddFits(d.imageAddress, d.received);
    SumIsAligned(d.imageAddress, d.received, d.memory.programAlignment);
    WriteKeepsTiles(d.programs, d.imageAddress, d.imageAddress + d.received, d.memory.programAlignment, data);
  }

  lemma BeginKeepsPlaced(d: Download, address: u32, length: u32, now: u32, erase: Result)
    requires Placed(d)
    ensures Placed(Begin(d, address, length, now, erase).0)
  {
  }

  /** Ending the reception, one way or the other, moves nothing. */
  lemma EndKeepsPlaced(d: Download, phase: Phase, crcValid: bool, activation: bool, promised: Option<bv32>)
    requires Placed(d) && d.begun
    requires (phase.Aborted? && !activation) || (phase.Complete? && d.received == d.imageLength)
    ensures Placed(d.(phase := phase, crcValid := crcValid, activationPending := activation, promised := promised))
  {
  }

  /** The three ends: aborted, complete, or nothing at all. */
  lemma FinishEnds(d: Download, expected: Option<bv32>, now: u32, verify: Result)
    ensures var d' := Finish(d, expected, now, verify).0;
            || d' == d
            || (&& d.phase.Receiving? && d.received == d.imageLength
                && d' == d.(phase := d'.phase, crcValid := d'.crcValid, activationPending := d'.activationPending,
                            promised := d'.promised)
                && (d'.phase.Complete? || (d'.phase.Aborted? && !d'.activationPending)))
  {
  }

  lemma FinishKeepsPlaced(d: Download, expected: Option<bv32>, now: u32, verify: Result)
    requires Placed(d)
    ensures Placed(Finish(d, expected, now, verify).0)
  {
    FinishEnds(d, expected, now, verify);
    EndKeeps(d, Finish(d, expected, now, verify).0);
  }

  lemma EndKeeps(d: Download, d': Download)
    requires Placed(d)
    requires d' != d ==>
               && d.phase.Receiving? && d.received == d.imageLength
               && d' == d.(phase := d'.phase, crcValid := d'.crcValid, activationPending := d'.activationPending,
                           promised := d'.promised)
               && (d'.phase.Complete? || (d'.phase.Aborted? && !d'.activationPending))
    ensures Placed(d')
  {
    if d' != d {
      EndKeepsPlaced(d, d'.phase, d'.crcValid, d'.activationPending, d'.promised);
    }
  }

  lemma OtherStepKeepsPlaced(d: Download, a: Action)
    requires Placed(d) && (a.DoPoll? || a.DoTick? || a.DoAbort?)
    ensures Placed(Step(d, a))
  {
  }

  lemma StepKeepsPlaced(d: Download, a: Action)
    requires Placed(d)
    ensures Placed(Step(d, a))
  {
    match a {
      case DoBegin(address, length, now, erase) => BeginKeepsPlaced(d, address, length, now, erase);
      case DoWrite(block, data, now, program) =>
        if Write(d, block, data, now, program).1.Ok? { WriteKeepsPlaced(d, data, now); }
      case DoFinish(expected, now, verify) => FinishKeepsPlaced(d, expected, now, verify);
      case _ => OtherStepKeepsPlaced(d, a);
    }
  }

  lemma WriteKeepsSummed(d: Download, data: seq<bv8>, now: u32)
    requires Summed(d) && d.phase.Receiving? && |data| <= d.imageLength - d.received
    ensures Summed(Programmed(d, data, now))
  {
    OneMoreProgram(d.programs, Program(Add32(d.imageAddress, d.received), data));
    UpdateInChunks(INITIAL, Written(d.programs), data);
  }

  lemma BeginKeepsSummed(d: Download, address: u32, length: u32, now: u32, erase: Result)
    requires Summed(d)
    ensures Summed(Begin(d, address, length, now, erase).0)
  {
  }

  lemma OtherStepKeepsSum(d: Download, a: Action, c: bv32)
    requires Ready(d) && SummedTo(d, c) && !a.DoBegin? && !a.DoWrite?
    ensures SummedTo(Step(d, a), c) && Step(d, a).programs == d.programs
  {
  }

  lemma StepKeepsSummed(d: Download, a: Action)
    requires Placed(d) && Summed(d)
    ensures Summed(Step(d, a))
  {
    match a {
      case DoBegin(address, length, now, erase) => BeginKeepsSummed(d, address, length, now, erase);
      case DoWrite(block, data, now, program) =>
        if Write(d, block, data, now, program).1.Ok? { WriteKeepsSummed(d, data, now); }
      case _ => OtherStepKeepsSum(d, a, Update(INITIAL, Written(d.programs)));
    }
  }

  /** The download counts its blocks from 1, modulo 256. */
  ghost predicate Counted(d: Download) {
    d.expectedBlock == (1 + |d.programs|) % 256
  }

  lemma NextBlockCounts(n: nat)
    ensures ((1 + n) % 256 + 1) % 256 == (1 + (n + 1)) % 256
  {
  }

  lemma WriteKeepsCounted(d: Download, block: byte, data: seq<bv8>, now: u32, program: Result)
    requires Ready(d) && Counted(d)
    ensures Counted(Write(d, block, data, now, program).0)
  {
    NextBlockCounts(|d.programs|);
  }

  lemma StepKeepsCounted(d: Download, a: Action)
    requires Ready(d) && Counted(d)
    ensures Counted(Step(d, a))
  {
    match a {
      case DoWrite(block, data, now, program) => WriteKeepsCounted(d, block, data, now, program);
      case DoFinish(expected, now, verify) => FinishEnds(d, expected, now, verify);
      case _ =>
    }
  }

  /** Everything the download keeps: where the bytes went, what they sum to and how many blocks they came in. */
  ghost predicate Sound(d: Download) {
    Placed(d) && Summed(d) && Counted(d)
  }

  lemma StepKeepsSound(d: Download, a: Action)
    requires Sound(d)
    ensures Sound(Step(d, a))
  {
    StepKeepsPlaced(d, a);
    StepKeepsSummed(d, a);
    StepKeepsCounted(d, a);
  }

  /** What an accepted image may do to memory. */
  ghost predicate Harmless(m: MemoryMap, address: u32, length: u32) {
    && address + length < TWO_32
    && (forall x :: address <= x < address + length ==> !m.Protects(x))
    && (address <= m.staging.end ==> forall x :: address <= x < address + length ==> m.staging.Has(x))
  }

  lemma AcceptedIsHarmless(m: MemoryMap, hasCallbacks: bool, address: u32, length: u32)
    requires BeginCheck(m, hasCallbacks, address, length).Ok?
    ensures Harmless(m, address, length)
  {
    AcceptedDoesNotWrap(m, address, length);
    AcceptedInsideStagingExactly(m, address, length);
    forall x | address <= x < address + length ensures !m.Protects(x) {
      AcceptedIsUnprotected(m, address, length, x);
    }
  }

  /** A successful write puts exactly its bytes behind those already in memory. */
  lemma WriteAppends(d: Download, block: byte, data: seq<bv8>, now: u32, program: Result)
    requires Ready(d) && Write(d, block, data, now, program).1.Ok?
    ensures var d' := Write(d, block, data, now, program).0;
            && Written(d'.programs) == Written(d.programs) + data
            && d'.programs == d.programs + [Program(Add32(d.imageAddress, d.received), data)]
  {
    OneMoreProgram(d.programs, Program(Add32(d.imageAddress, d.received), data));
  }

  /** A successful finish means that the whole image is in memory, with the checksum asked for. */
  lemma FinishIsWhole(d: Download, expected: Option<bv32>, now: u32, verify: Result)
    requires Sound(d) && Finish(d, expected, now, verify).1.Ok?
    ensures var d' := Finish(d, expected, now, verify).0;
            && d'.phase.Complete? && d'.programs == d.programs
            && |Written(d'.programs)| == d'.imageLength
            && (expected.Some? ==> Crc(Written(d'.programs)) == expected.value)
  {
  }

  function Run(d: Download, actions: seq<Action>): (d': Download)
    requires Placed(d)
    ensures Placed(d')
    decreases |actions|
  {
    if actions == [] then d else StepKeepsPlaced(d, actions[0]); Run(Step(d, actions[0]), actions[1..])
  }

  lemma {:induction false} RunKeepsSummed(d: Download, actions: seq<Action>)
    requires Placed(d) && Summed(d)
    ensures Summed(Run(d, actions))
    decreases |actions|
  {
    if actions != [] {
      StepKeepsPlaced(d, actions[0]);
      StepKeepsSummed(d, actions[0]);
      RunKeepsSummed(Step(d, actions[0]), actions[1..]);
    }
  }

  lemma {:induction false} TileBounds(ps: seq<Program>, address: int, alignment: int, i: nat)
    requires alignment > 0 && Tiles(ps, address, alignment) && i < |ps|
    ensures ps[i].address % alignment == 0
    ensures ps[i].address == address + |Written(ps[..i])|
    ensures ps[i].address + |ps[i].data| == address + |Written(ps[..i + 1])| <= address + |Written(ps)|
    decreases |ps|
  {
    var n := |ps| - 1;
    if i < n {
      assert ps[..n][..i] == ps[..i] && ps[..n][..i + 1] == ps[..i + 1];
      TileBounds(ps[..n], address, alignment, i);
    } else {
      assert ps[..i + 1] == ps;
    }
  }

  /**
   * Tiling. In every run, the program calls since the last begin start at the image address, each begins
   * where the one before ended, all at aligned addresses, and together they reach exactly the received
   * length; no programmed byte lies beyond the 32-bit space or in a region that belongs to anyone else,
   * and all lie in the staging region unless the image starts past its end.
   */
  lemma DownloadTiling(memory: MemoryMap, hasCallbacks: bool, actions: seq<Action>, i: nat)
    requires i < |Run(Init(memory, hasCallbacks), actions).programs|
    ensures var d := Run(Init(memory, hasCallbacks), actions);
            var p := d.programs[i];
            && p.address == (if i == 0 then d.imageAddress else d.programs[i - 1].address + |d.programs[i - 1].data|)
            && p.address % d.memory.programAlignment == 0
            && p.address + |p.data| <= d.imageAddress + d.received < TWO_32
            && (i == |d.programs| - 1 ==> p.address + |p.data| == d.imageAddress + d.received)
            && (forall x :: p.address <= x < p.address + |p.data| ==> !d.memory.Protects(x))
            && (d.imageAddress <= d.memory.staging.end ==>
                  forall x :: p.address <= x < p.address + |p.data| ==> d.memory.staging.Has(x))
  {
    var d := Run(Init(memory, hasCallbacks), actions);
    AcceptedDoesNotWrap(d.memory, d.imageAddress, d.imageLength);
    TileBounds(d.programs, d.imageAddress, d.memory.programAlignment, i);
    if i > 0 {
      TileBounds(d.programs, d.imageAddress, d.memory.programAlignment, i - 1);
    } else {
      assert d.programs[..0] == [];
    }
    assert d.programs[..|d.programs|] == d.programs;
    forall x | d.programs[i].address <= x < d.programs[i].address + |d.programs[i].data|
      ensures !d.memory.Protects(x)
    {
      AcceptedIsUnprotected(d.memory, d.imageAddress, d.imageLength, x);
    }
    AcceptedInsideStagingExactly(d.memory, d.imageAddress, d.imageLength);
  }

  /**
   * Completion. In every run, COMPLETE means that exactly the image's bytes were programmed and, if the
   * client gave a checksum, that it is the CRC-32 of those bytes, however they were cut into blocks; and
   * an activation is pending only on a complete image.
   */
  lemma DownloadCompletion(memory: MemoryMap, hasCallbacks: bool, actions: seq<Action>)
    ensures var d := Run(Init(memory, hasCallbacks), actions);
            && (d.phase.Complete? ==>
                  && |Written(d.programs)| == d.imageLength
                  && (d.promised.Some? ==> Crc(Written(d.programs)) == d.promised.value))
            && (d.activationPending ==> d.phase.Complete?)
  {
    RunKeepsSummed(Init(memory, hasCallbacks), actions);
  }
}
