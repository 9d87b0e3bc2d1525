/**
 * When each call of the download succeeds, and what it says otherwise, in terms of memory, of the bytes
 * programmed so far and of what the callbacks report.
 */
module UdsOutcomes {
  import opened Words
  import opened Crc32
  import opened UdsDownload

  // -------------------------------------------------------------------- begin

  /** The image touches the region: they share a byte, or the region is empty and lies strictly inside. */
  ghost predicate Touches(address: u32, length: u32, r: Region) {
    || (exists x :: address <= x < address + length && r.Has(x))
    || (r.end <= r.start && address < r.end && r.start < address + length)
  }

  lemma OverlapsExactly(address: u32, length: u32, r: Region)
    requires length > 0 && address + length < TWO_32
    ensures Overlaps(Region(address, address + length), r) <==> Touches(address, length, r)
  {
    if address < r.end && r.start < address + length && r.start < r.end {
      var x := Max(address, r.start);
      assert address <= x < address + length && r.Has(x);
    }
  }

  /** Inside the staging region, or wholly behind it. */
  predicate Stageable(staging: Region, address: u32, length: u32) {
    && staging.start <= staging.end && staging.start <= address
    && (address + length <= staging.end || staging.end < address)
  }

  /** The ranges that are accepted: real ones, where an image may be staged, touching no protected region. */
  lemma RangeAcceptedExactly(m: MemoryMap, address: u32, length: u32)
    ensures RangeAccepted(m, address, length)
       <==> && length > 0 && address + length < TWO_32 && Stageable(m.staging, address, length)
            && !Touches(address, length, m.bootloader) && !Touches(address, length, m.active)
            && !Touches(address, length, m.nvm) && !Touches(address, length, m.diagnostic)
  {
    if length > 0 && address + length < TWO_32 {
      OverlapsExactly(address, length, m.bootloader);
      OverlapsExactly(address, length, m.active);
      OverlapsExactly(address, length, m.nvm);
      OverlapsExactly(address, length, m.diagnostic);
      SubtractionWraps(m.staging.end, address, length);
    }
  }

  lemma SubtractionWraps(end: u32, address: u32, length: u32)
    requires address + length < TWO_32
    ensures length <= Sub32(end, address) <==> length == 0 || address + length <= end || end < address
  {
    if end < address {
      assert Sub32(end, address) == end - address + TWO_32;
    }
  }

  /** Why a download does not begin, and that it begins exactly if nothing speaks against it. */
  lemma BeginExactly(d: Download, address: u32, length: u32, now: u32, erase: Result)
    ensures var m, (d', result) := d.memory, Begin(d, address, length, now, erase);
            var aligned := && m.eraseAlignment > 0 && address % m.eraseAlignment == 0 && length % m.eraseAlignment == 0
                           && m.programAlignment > 0 && address % m.programAlignment == 0;
            && result == (if !d.hasCallbacks then InvalidArgument
                          else if !RangeAccepted(m, address, length) then OutOfRange
                          else if !aligned then AlignmentError
                          else if !(3 <= m.maxBlock <= 256) then InvalidArgument
                          else erase)
            && (result.Ok? ==> d'.phase.Erasing? && d'.imageAddress == address && d'.imageLength == length
                               && d'.received == 0 && d'.programs == [] && d'.expectedBlock == 1
                               && !d'.activationPending && !d'.crcValid && d'.promised == None)
            && (!result.Ok? ==> d' == d)
  {
  }

  // --------------------------------------------------------------------- runs

  /** A download object, fresh from initialisation, after all of `actions`. */
  function After(memory: MemoryMap, hasCallbacks: bool, actions: seq<Action>): (d: Download)
    ensures Sound(d)
  {
    if actions == [] then Init(memory, hasCallbacks)
    else
      var d := After(memory, hasCallbacks, actions[..|actions| - 1]);
      StepKeepsSound(d, actions[|actions| - 1]);
      Step(d, actions[|actions| - 1])
  }

  /** A successful begin, poll or write. */
  predicate Progresses(d: Download, a: Action)
    requires Ready(d)
  {
    match a
    case DoBegin(address, length, now, erase) => Begin(d, address, length, now, erase).1.Ok?
    case DoPoll(now, poll) => PollErase(d, now, poll).1.Ok?
    case DoWrite(block, data, now, program) => Write(d, block, data, now, program).1.Ok?
    case _ => false
  }

  /** When the download last got on. */
  ghost function LastProgress(memory: MemoryMap, hasCallbacks: bool, actions: seq<Action>): u32 {
    if actions == [] then 0
    else
      var init, a := actions[..|actions| - 1], actions[|actions| - 1];
      if Progresses(After(memory, hasCallbacks, init), a) then a.now else LastProgress(memory, hasCallbacks, init)
  }

  /** Five seconds have passed since then. */
  ghost predicate Overdue(memory: MemoryMap, hasCallbacks: bool, actions: seq<Action>, now: u32) {
    Expired(now, Add32(LastProgress(memory, hasCallbacks, actions), 5000))
  }

  predicate Running(d: Download) {
    d.phase.Erasing? || d.phase.Receiving?
  }

  lemma ProgressSetsDeadline(d: Download, a: Action)
    requires Ready(d) && Running(Step(d, a))
    ensures Step(d, a).deadlineMs == if Progresses(d, a) then Add32(a.now, 5000) else d.deadlineMs
    ensures Progresses(d, a) || Running(d)
  {
  }

  lemma {:induction false} DeadlineFromProgress(memory: MemoryMap, hasCallbacks: bool, actions: seq<Action>)
    requires Running(After(memory, hasCallbacks, actions))
    ensures After(memory, hasCallbacks, actions).deadlineMs == Add32(LastProgress(memory, hasCallbacks, actions), 5000)
  {
    hide Step;
    hide Progresses;
    if actions != [] {
      var init, a := actions[..|actions| - 1], actions[|actions| - 1];
      ProgressSetsDeadline(After(memory, hasCallbacks, init), a);
      if Running(After(memory, hasCallbacks, init)) {
        DeadlineFromProgress(memory, hasCallbacks, init);
      }
    }
  }

  /** Giving up: the phase and a pending activation are all that changes. */
  predicate GivenUp(d: Download, d': Download) {
    d' == d.(phase := Aborted, activationPending := false)
  }

  /** A tick gives up a running download exactly when it is overdue, and does nothing else. */
  lemma TickExactly(memory: MemoryMap, hasCallbacks: bool, actions: seq<Action>, now: u32)
    ensures var d := After(memory, hasCallbacks, actions);
            var (d', result) := Tick(d, now);
            if Running(d) && Overdue(memory, hasCallbacks, actions, now) then result == Timeout && GivenUp(d, d')
            else result == Ok && d' == d
  {
    if Running(After(memory, hasCallbacks, actions)) {
      DeadlineFromProgress(memory, hasCallbacks, actions);
    }
  }

  /** A poll in time passes on what the erase reports, and reception begins exactly when that is success. */
  lemma PollExactly(memory: MemoryMap, hasCallbacks: bool, actions: seq<Action>, now: u32, poll: Result)
    ensures var d := After(memory, hasCallbacks, actions);
            var (d', result) := PollErase(d, now, poll);
            if !d.phase.Erasing? then result == NotReady && d' == d
            else if Overdue(memory, hasCallbacks, actions, now) then result == Timeout && GivenUp(d, d')
            else && result == poll
                 && (poll.Ok? ==> d'.phase.Receiving? && d'.received == d.received)
                 && (!poll.Ok? ==> d' == d)
  {
    if After(memory, hasCallbacks, actions).phase.Erasing? {
      DeadlineFromProgress(memory, hasCallbacks, actions);
    }
  }

  /** Why a block is not written, in the order of the checks, or what programming it reports. */
  function WriteAnswer(d: Download, block: byte, data: seq<bv8>, overdue: bool, program: Result): Result
    requires Ready(d)
  {
    var got := |Written(d.programs)|;
    if !(1 <= |data| <= 256) || !d.phase.Receiving? then NotReady
    else if overdue then Timeout
    else if block != (1 + |d.programs|) % 256 then SequenceError
    else if got + |data| > d.imageLength then Overflow
    else if got % d.memory.programAlignment != 0 || |data| % d.memory.programAlignment != 0 then AlignmentError
    else if program.Ok? then Ok else ProgramError
  }

  /** What a write leaves behind. */
  ghost predicate WriteLeaves(d: Download, d': Download, data: seq<bv8>, result: Result) {
    && (result.Ok? ==> Written(d'.programs) == Written(d.programs) + data && d'.phase == d.phase)
    && (result.Timeout? ==> GivenUp(d, d'))
    && (!result.Ok? && !result.Timeout? ==> d' == d)
  }

  lemma WriteDoes(d: Download, block: byte, data: seq<bv8>, overdue: bool, now: u32, program: Result)
    requires Placed(d) && Counted(d) && (d.phase.Receiving? ==> d.begun && (overdue <==> Expired(now, d.deadlineMs)))
    ensures var (d', result) := Write(d, block, data, now, program);
            result == WriteAnswer(d, block, data, overdue, program) && WriteLeaves(d, d', data, result)
  {
    if Write(d, block, data, now, program).1.Ok? {
      WriteAppends(d, block, data, now, program);
    }
  }

  /**
   * A block is written exactly if it is the one due, fits behind the bytes already in memory, is aligned and comes
   * in time, and the memory takes it. Then exactly its bytes are behind the others.
   */
  lemma WriteExactly(memory: MemoryMap, hasCallbacks: bool, actions: seq<Action>, block: byte, data: seq<bv8>, now: u32,
                     program: Result)
    ensures var d := After(memory, hasCallbacks, actions);
            var (d', result) := Write(d, block, data, now, program);
            && result == WriteAnswer(d, block, data, Overdue(memory, hasCallbacks, actions, now), program)
            && WriteLeaves(d, d', data, result)
  {
    hide After;
    hide WriteAnswer;
    hide WriteLeaves;
    hide Write;
    var d := After(memory, hasCallbacks, actions);
    if d.phase.Receiving? {
      DeadlineFromProgress(memory, hasCallbacks, actions);
    }
    WriteDoes(d, block, data, Overdue(memory, hasCallbacks, actions, now), now, program);
  }

  /** Why a download is not finished, or what verifying it reports. */
  function FinishAnswer(d: Download, expected: Option<bv32>, overdue: bool, verify: Result): Result {
    if !d.phase.Receiving? || |Written(d.programs)| != d.imageLength then NotReady
    else if overdue then Timeout
    else if expected.Some? && expected.value != Crc(Written(d.programs)) then VerifyError
    else verify
  }

  /** What finishing leaves behind. */
  ghost predicate FinishLeaves(d: Download, d': Download, expected: Option<bv32>, result: Result) {
    if result.Ok? then
      && d'.phase.Complete? && d'.crcValid && d'.promised == expected && d'.programs == d.programs
      && d'.activationPending == !d.memory.activationSupported
    else if d.phase.Receiving? && |Written(d.programs)| == d.imageLength then d'.phase.Aborted?
    else d' == d
  }

  lemma FinishDoes(d: Download, expected: Option<bv32>, overdue: bool, now: u32, verify: Result)
    requires Sound(d) && (d.phase.Receiving? ==> (overdue <==> Expired(now, d.deadlineMs)))
    ensures var (d', result) := Finish(d, expected, now, verify);
            result == FinishAnswer(d, expected, overdue, verify) && FinishLeaves(d, d', expected, result)
  {
  }

  /**
   * A download is finished exactly if every byte of the image is in memory, in time, with the checksum asked
   * for, and the image is found valid. An activation is pending then exactly if the board cannot activate by
   * itself. A download that has all bytes but is not finished is given up.
   */
  lemma FinishExactly(memory: MemoryMap, hasCallbacks: bool, actions: seq<Action>, expected: Option<bv32>, now: u32,
                      verify: Result)
    ensures var d := After(memory, hasCallbacks, actions);
            var (d', result) := Finish(d, expected, now, verify);
            && result == FinishAnswer(d, expected, Overdue(memory, hasCallbacks, actions, now), verify)
            && FinishLeaves(d, d', expected, result)
  {
    hide After;
    hide FinishAnswer;
    hide FinishLeaves;
    hide Finish;
    var d := After(memory, hasCallbacks, actions);
    if d.phase.Receiving? {
      DeadlineFromProgress(memory, hasCallbacks, actions);
    }
    FinishDoes(d, expected, Overdue(memory, hasCallbacks, actions, now), now, verify);
  }
}
