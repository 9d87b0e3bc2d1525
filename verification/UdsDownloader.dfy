/** The download object as it runs, its fields updated in place by every call. */
module UdsDownloader {
  import opened Words
  import opened Crc32
  import opened UdsDownload

  class Downloader {
    const memory: MemoryMap
    const hasCallbacks: bool
    var phase: Phase
    var begun: bool
    var imageAddress: u32
    var imageLength: u32
    var received: u32
    var crcValid: bool
    var activationPending: bool
    var expectedBlock: byte
    var deadlineMs: u32
    var crc: bv32
    ghost var programs: seq<Program>
    ghost var promised: Option<bv32>

    ghost function State(): Download
      reads this
    {
      Download(memory, hasCallbacks, phase, begun, imageAddress, imageLength, received, crcValid,
               activationPending, expectedBlock, deadlineMs, crc, programs, promised)
    }

    /** What every call keeps, over any run of calls. */
    ghost predicate Valid()
      reads this
    {
      Sound(State())
    }

    constructor (memory: MemoryMap, hasCallbacks: bool)
      ensures Valid() && State() == Init(memory, hasCallbacks)
    {
      this.memory, this.hasCallbacks := memory, hasCallbacks;
      phase, begun, imageAddress, imageLength, received := Phase.Idle, false, 0, 0, 0;
      crcValid, activationPending, expectedBlock, deadlineMs, crc := false, false, 1, 0, INITIAL;
      programs, promised := [], None;
    }

    method AbortDownload()
      requires Valid()
      modifies this
      ensures Valid() && State() == Abort(old(State()))
    {
      StepKeepsSound(State(), DoAbort);
      phase := Aborted;
      activationPending := false;
    }

    /**
     * The checks before an erase. An image that passes them does not wrap around, touches nothing that belongs
     * to anyone else, and lies in the staging region unless it starts past the region's end.
     */
    method CheckImage(address: u32, length: u32) returns (r: Result)
      ensures r == BeginCheck(memory, hasCallbacks, address, length)
      ensures r.Ok? ==> Harmless(memory, address, length)
    {
      if !hasCallbacks {
        return InvalidArgument;
      }
      var image := Region(address, Add32(address, length));
      if length == 0 || image.end < address || !RangeInside(memory.staging, address, length)
         || Overlaps(image, memory.bootloader) || Overlaps(image, memory.active)
         || Overlaps(image, memory.nvm) || Overlaps(image, memory.diagnostic) {
        return OutOfRange;
      }
      if !Aligned(address, memory.eraseAlignment) || !Aligned(length, memory.eraseAlignment)
         || !Aligned(address, memory.programAlignment) {
        return AlignmentError;
      }
      if memory.maxBlock < 3 || memory.maxBlock > MAX_CHUNK {
        return InvalidArgument;
      }
      r := Ok;
      AcceptedIsHarmless(memory, hasCallbacks, address, length);
    }

    method BeginDownload(address: u32, length: u32, now: u32, erase: Result) returns (r: Result)
      requires Valid()
      modifies this
      ensures Valid()
      ensures (State(), r) == Begin(old(State()), address, length, now, erase)
      ensures r.Ok? ==> Harmless(memory, address, length) && Written(programs) == []
    {
      StepKeepsSound(State(), DoBegin(address, length, now, erase));
      r := CheckImage(address, length);
      if !r.Ok? {
        return;
      }
      if !erase.Ok? {
        return erase;
      }
      Open(address, length, now);
      r := Ok;
    }

    method Open(address: u32, length: u32, now: u32)
      modifies this
      ensures State() == Opened(old(State()), address, length, now)
    {
      ClearMetadata(address, length);
      crc, expectedBlock, deadlineMs, phase := INITIAL, 1, Add32(now, TIMEOUT_MS), Erasing;
      programs, promised := [], None;
    }

    method ClearMetadata(address: u32, length: u32)
      modifies this`begun, this`imageAddress, this`imageLength, this`received, this`crcValid, this`activationPending
      ensures State() == old(State()).(begun := true, imageAddress := address, imageLength := length, received := 0,
                                       crcValid := false, activationPending := false)
    {
      begun, imageAddress, imageLength, received := true, address, length, 0;
      crcValid, activationPending := false, false;
    }

    method Poll(now: u32, poll: Result) returns (r: Result)
      requires Valid()
      modifies this
      ensures Valid() && programs == old(programs)
      ensures (State(), r) == PollErase(old(State()), now, poll)
    {
      StepKeepsSound(State(), DoPoll(now, poll));
      if !phase.Erasing? {
        return NotReady;
      }
      if Expired(now, deadlineMs) {
        AbortDownload();
        return Timeout;
      }
      if poll.Ok? {
        phase := Receiving;
        deadlineMs := Add32(now, TIMEOUT_MS);
      }
      r := poll;
    }

    method WriteBlock(block: byte, data: seq<bv8>, now: u32, program: Result) returns (r: Result)
      requires Valid()
      modifies this
      ensures Valid()
      ensures (State(), r) == Write(old(State()), block, data, now, program)
      ensures Written(programs) == if r.Ok? then old(Written(programs)) + data else old(Written(programs))
    {
      StepKeepsSound(State(), DoWrite(block, data, now, program));
      if Write(State(), block, data, now, program).1.Ok? {
        WriteAppends(State(), block, data, now, program);
      }
      r := TakeBlock(block, data, now, program);
    }

    method TakeBlock(block: byte, data: seq<bv8>, now: u32, program: Result) returns (r: Result)
      requires Valid()
      modifies this
      ensures (State(), r) == Write(old(State()), block, data, now, program)
    {
      if |data| == 0 || |data| > MAX_CHUNK || !phase.Receiving? {
        return NotReady;
      }
      if Expired(now, deadlineMs) {
        AbortDownload();
        return Timeout;
      }
      if block != expectedBlock {
        return SequenceError;
      }
      if |data| > imageLength - received {
        return Overflow;
      }
      if received % memory.programAlignment != 0 || |data| % memory.programAlignment != 0 {
        return AlignmentError;
      }
      if !program.Ok? {
        return ProgramError;
      }
      Record(data, now);
      r := Ok;
    }

    method Record(data: seq<bv8>, now: u32)
      requires |data| <= imageLength - received
      modifies this
      ensures State() == Programmed(old(State()), data, now)
    {
      programs := programs + [Program(Add32(imageAddress, received), data)];
      received := received + |data|;
      crc := ComputeUpdate(crc, data);
      expectedBlock := (expectedBlock + 1) % 256;
      deadlineMs := Add32(now, TIMEOUT_MS);
    }

    /** On success the bytes programmed since the begin are the whole image and match the checksum asked for. */
    method FinishDownload(expected: Option<bv32>, now: u32, verify: Result) returns (r: Result)
      requires Valid()
      modifies this
      ensures Valid()
      ensures (State(), r) == Finish(old(State()), expected, now, verify)
      ensures r.Ok? ==> |Written(programs)| == imageLength
      ensures r.Ok? && expected.Some? ==> Crc(Written(programs)) == expected.value
    {
      StepKeepsSound(State(), DoFinish(expected, now, verify));
      if Finish(State(), expected, now, verify).1.Ok? {
        FinishIsWhole(State(), expected, now, verify);
      }
      r := Conclude(expected, now, verify);
    }

    method Conclude(expected: Option<bv32>, now: u32, verify: Result) returns (r: Result)
      requires Valid()
      modifies this
      ensures (State(), r) == Finish(old(State()), expected, now, verify)
    {
      if !phase.Receiving? || received != imageLength {
        return NotReady;
      }
      if Expired(now, deadlineMs) {
        AbortDownload();
        return Timeout;
      }
      crcValid := expected.None? || Final(crc) == expected.value;
      if !crcValid {
        AbortDownload();
        return VerifyError;
      }
      if !verify.Ok? {
        AbortDownload();
        return verify;
      }
      activationPending := !memory.activationSupported;
      phase := Complete;
      promised := expected;
      r := Ok;
    }

    method TickDownload(now: u32) returns (r: Result)
      requires Valid()
      modifies this
      ensures Valid() && programs == old(programs)
      ensures (State(), r) == Tick(old(State()), now)
    {
      StepKeepsSound(State(), DoTick(now));
      if phase.Idle? || phase.Complete? || phase.Aborted? {
        return Ok;
      }
      if Expired(now, deadlineMs) {
        AbortDownload();
        return Timeout;
      }
      r := Ok;
    }
  }
}
