/**
 * The server over whole runs: session, security level, transfer, reset and fault memory are read off the history
 * of requests and ticks, last event first, without looking at any state in between.
 */
module UdsHistory {
  import opened Words
  import opened UdsServer
  import opened UdsAnswers

  datatype Event =
    | Request(q: seq<byte>, capacity: u16, now: u32, replies: Replies)
    | Timer(now: u32)

  function React(s: Server, e: Event): Server {
    match e
    case Request(q, capacity, now, replies) => Handle(s, q, capacity, now, replies).server
    case Timer(now) => Tick(s, now).0
  }

  /** A server with these callbacks, initialised at `start`, after all of `events`. */
  function After(installed: set<byte>, start: u32, events: seq<Event>): Server {
    if events == [] then Init(installed, start)
    else React(After(installed, start, events[..|events| - 1]), events[|events| - 1])
  }

  // ------------------------------------------------------ reading the history

  predicate IsHeard(e: Event) {
    e.Request? && Heard(e.q, e.capacity)
  }

  /** When the client was last heard. */
  function LastHeard(start: u32, events: seq<Event>): u32 {
    if events == [] then start
    else
      var n := |events| - 1;
      if IsHeard(events[n]) then events[n].now else LastHeard(start, events[..n])
  }

  /** The client has been silent for longer than S3. */
  predicate Lapses(start: u32, before: seq<Event>, e: Event) {
    e.Timer? && Expired(e.now, Add32(LastHeard(start, before), 5000))
  }

  predicate ChangesSession(e: Event) {
    IsHeard(e) && |e.q| == 2 && e.q[0] == 0x10 && 1 <= e.q[1] % 0x80 <= 3
  }

  /** A request that the callback for its service agrees to. */
  predicate Agreed(installed: set<byte>, e: Event, service: byte) {
    IsHeard(e) && e.q[0] == service && service in installed && e.replies(0).code.Ok?
  }

  predicate Unlocks(installed: set<byte>, e: Event) {
    Agreed(installed, e, 0x27) && IsKey(e.q)
  }

  function Session(start: u32, events: seq<Event>): byte {
    if events == [] then 1
    else
      var init, e := events[..|events| - 1], events[|events| - 1];
      if ChangesSession(e) then e.q[1] % 0x80 else if Lapses(start, init, e) then 1 else Session(start, init)
  }

  /** The level of the last accepted key since the last change of session or lapse, 0 without one. */
  function Level(installed: set<byte>, start: u32, events: seq<Event>): byte {
    if events == [] then 0
    else
      var init, e := events[..|events| - 1], events[|events| - 1];
      if ChangesSession(e) || Lapses(start, init, e) then 0
      else if Unlocks(installed, e) then e.q[1] / 2
      else Level(installed, start, init)
  }

  predicate ResetAsked(installed: set<byte>, events: seq<Event>) {
    exists i :: 0 <= i < |events| && AsksForReset(installed, events[i])
  }

  predicate AsksForReset(installed: set<byte>, e: Event) {
    Agreed(installed, e, 0x11) && |e.q| == 2 && e.q[1] % 0x80 == 1
  }

  /** Fault memory is on from the start; the last agreed setting counts. */
  function FaultsStored(installed: set<byte>, events: seq<Event>): bool {
    if events == [] then true
    else
      var e := events[|events| - 1];
      if Agreed(installed, e, 0x85) && |e.q| == 2 && 1 <= e.q[1] % 0x80 <= 2 then e.q[1] % 0x80 == 1
      else FaultsStored(installed, events[..|events| - 1])
  }

  // ------------------------------------------------------------------ transfer

  /** A transfer opens when the download callback agrees to blocks of three bytes or more and that can be said. */
  predicate Opens(installed: set<byte>, e: Event) {
    Agreed(installed, e, 0x34) && DownloadWellFormed(e.q) && e.replies(0).blockLength >= 3 && e.capacity >= 4
  }

  predicate Closes(installed: set<byte>, e: Event) {
    Agreed(installed, e, 0x37)
  }

  function Transfer(installed: set<byte>, start: u32, events: seq<Event>): bool {
    if events == [] then false
    else
      var init, e := events[..|events| - 1], events[|events| - 1];
      if Opens(installed, e) then true
      else if Closes(installed, e) || Lapses(start, init, e) then false
      else Transfer(installed, start, init)
  }

  /** The block length announced last. */
  function Announced(installed: set<byte>, events: seq<Event>): u16 {
    if events == [] then 0
    else
      var e := events[|events| - 1];
      if Opens(installed, e) then e.replies(0).blockLength else Announced(installed, events[..|events| - 1])
  }

  /** The event is the block due in an open transfer, no longer than announced, and the callback took it. */
  predicate TakesBlock(installed: set<byte>, e: Event, open: bool, blocks: nat, announced: u16) {
    && Agreed(installed, e, 0x36) && 3 <= |e.q| <= announced as nat && open && e.q[1] == (1 + blocks) % 256
  }

  /** Blocks taken since the transfer opened. */
  function Blocks(installed: set<byte>, start: u32, events: seq<Event>): nat {
    if events == [] then 0
    else
      var init, e := events[..|events| - 1], events[|events| - 1];
      var blocks, open := Blocks(installed, start, init), Transfer(installed, start, init);
      if Opens(installed, e) || Lapses(start, init, e) then 0
      else if TakesBlock(installed, e, open, blocks, Announced(installed, init)) then blocks + 1
      else blocks
  }

  // ------------------------------------------------------------------ proofs

  /** What a request that is heard does to the server. */
  predicate Moves(s: Server, s': Server, e: Event)
    requires IsHeard(e)
  {
    && s'.installed == s.installed && s'.lastActivityMs == e.now
    && s'.session == (if ChangesSession(e) then e.q[1] % 0x80 else s.session)
    && s'.securityLevel
         == (if ChangesSession(e) then 0 else if Unlocks(s.installed, e) then e.q[1] / 2 else s.securityLevel)
    && s'.resetPending == (s.resetPending || AsksForReset(s.installed, e))
    && s'.dtcSetting
         == (if Agreed(s.installed, e, 0x85) && |e.q| == 2 && 1 <= e.q[1] % 0x80 <= 2 then e.q[1] % 0x80 == 1
             else s.dtcSetting)
    && s'.downloadActive == (Opens(s.installed, e) || (s.downloadActive && !Closes(s.installed, e)))
    && s'.maxBlock == (if Opens(s.installed, e) then e.replies(0).blockLength else s.maxBlock)
    && s'.nextBlock
         == (if Opens(s.installed, e) then 1
             else if Due(s, e) then (s.nextBlock + 1) % 256
             else s.nextBlock)
  }

  predicate Due(s: Server, e: Event) {
    && Agreed(s.installed, e, 0x36) && |e.q| >= 3 && s.downloadActive && e.q[1] == s.nextBlock
    && |e.q| - 2 <= (s.maxBlock - 2) % 0x1_0000
  }

  lemma SecurityMoves(s: Server, e: Event)
    requires IsHeard(e) && e.q[0] == 0x27 && s.lastActivityMs == e.now
    ensures Moves(s, SecurityAccess(s, e.q, e.capacity, e.replies(0)).server, e)
  {
  }

  lemma DownloadMoves(s: Server, e: Event)
    requires IsHeard(e) && e.q[0] in {0x34, 0x36, 0x37} && s.lastActivityMs == e.now
    ensures Moves(s, DownloadServices(s, e.q, e.capacity, e.replies(0)).server, e)
  {
  }

  lemma SessionMoves(s: Server, e: Event)
    requires IsHeard(e) && e.q[0] == 0x10 && s.lastActivityMs == e.now
    ensures Moves(s, SessionControl(s, e.q, e.capacity).server, e)
  {
  }

  lemma ResetMoves(s: Server, e: Event)
    requires IsHeard(e) && e.q[0] == 0x11 && s.lastActivityMs == e.now
    ensures Moves(s, EcuReset(s, e.q, e.capacity, e.replies(0)).server, e)
  {
  }

  lemma FaultsMove(s: Server, e: Event)
    requires IsHeard(e) && e.q[0] == 0x85 && s.lastActivityMs == e.now
    ensures Moves(s, DtcSetting(s, e.q, e.capacity, e.replies(0)).server, e)
  {
  }

  lemma NothingMoves(s: Server, e: Event)
    requires IsHeard(e) && e.q[0] !in {0x10, 0x11, 0x27, 0x34, 0x36, 0x37, 0x85} && s.lastActivityMs == e.now
    ensures OtherServices(s, e.q, e.capacity, e.replies).server == s && Moves(s, s, e)
  {
  }

  lemma RequestMoves(s: Server, e: Event)
    requires IsHeard(e)
    ensures Moves(s, React(s, e), e)
  {
    var s' := s.(lastActivityMs := e.now);
    assert Moves(s', React(s, e), e) by {
      hide Moves;
      if e.q[0] in {0x34, 0x36, 0x37} {
        DownloadMoves(s', e);
      } else if e.q[0] == 0x27 {
        SecurityMoves(s', e);
      } else if e.q[0] == 0x10 {
        SessionMoves(s', e);
      } else if e.q[0] == 0x11 {
        ResetMoves(s', e);
      } else if e.q[0] == 0x85 {
        FaultsMove(s', e);
      } else {
        NothingMoves(s', e);
      }
    }
  }

  lemma UnheardChangesNothing(s: Server, e: Event)
    requires e.Request? && !IsHeard(e)
    ensures React(s, e) == s
  {
  }

  /** The server is what the history says: in what it keeps besides a transfer, and in the transfer. */
  ghost predicate Reflects(s: Server, installed: set<byte>, start: u32, events: seq<Event>) {
    ReflectsStanding(s, installed, start, events) && ReflectsTransfer(s, installed, start, events)
  }

  ghost predicate ReflectsStanding(s: Server, installed: set<byte>, start: u32, events: seq<Event>) {
    && s.installed == installed
    && s.lastActivityMs == LastHeard(start, events)
    && s.session == Session(start, events)
    && s.securityLevel == Level(installed, start, events)
    && s.resetPending == ResetAsked(installed, events)
    && s.dtcSetting == FaultsStored(installed, events)
  }

  ghost predicate ReflectsTransfer(s: Server, installed: set<byte>, start: u32, events: seq<Event>) {
    && s.installed == installed
    && s.downloadActive == Transfer(installed, start, events)
    && s.maxBlock == Announced(installed, events)
    && s.nextBlock == (1 + Blocks(installed, start, events)) % 256
    && (s.downloadActive ==> s.maxBlock >= 3)
  }

  lemma ResetAskedGrows(installed: set<byte>, init: seq<Event>, e: Event)
    ensures ResetAsked(installed, init + [e]) <==> ResetAsked(installed, init) || AsksForReset(installed, e)
  {
    var all := init + [e];
    if AsksForReset(installed, e) {
      assert all[|init|] == e;
    }
    if i :| 0 <= i < |init| && AsksForReset(installed, init[i]) {
      assert all[i] == init[i];
    }
  }

  lemma NextBlockTurns(blocks: nat)
    ensures ((1 + blocks) % 256 + 1) % 256 == (1 + (blocks + 1)) % 256
  {
  }

  lemma StandingIsReflected(s: Server, s': Server, installed: set<byte>, start: u32, init: seq<Event>, e: Event)
    requires ReflectsStanding(s, installed, start, init) && IsHeard(e) && Moves(s, s', e)
    ensures ReflectsStanding(s', installed, start, init + [e])
  {
    var all := init + [e];
    assert all[..|all| - 1] == init && all[|all| - 1] == e;
    ResetAskedGrows(installed, init, e);
  }

  lemma TransferIsReflected(s: Server, s': Server, installed: set<byte>, start: u32, init: seq<Event>, e: Event)
    requires ReflectsTransfer(s, installed, start, init) && IsHeard(e) && Moves(s, s', e)
    ensures ReflectsTransfer(s', installed, start, init + [e])
  {
    var all := init + [e];
    assert all[..|all| - 1] == init && all[|all| - 1] == e;
    NextBlockTurns(Blocks(installed, start, init));
  }

  lemma RequestIsReflected(s: Server, installed: set<byte>, start: u32, init: seq<Event>, e: Event)
    requires Reflects(s, installed, start, init) && IsHeard(e)
    ensures Reflects(React(s, e), installed, start, init + [e])
  {
    hide React;
    hide Moves;
    RequestMoves(s, e);
    StandingIsReflected(s, React(s, e), installed, start, init, e);
    TransferIsReflected(s, React(s, e), installed, start, init, e);
  }

  /** What any other event does: nothing, unless it is a lapse. */
  lemma OtherMoves(s: Server, e: Event)
    requires !IsHeard(e)
    ensures React(s, e)
         == if e.Timer? && Expired(e.now, Add32(s.lastActivityMs, 5000))
            then s.(session := 1, securityLevel := 0, downloadActive := false, nextBlock := 1) else s
  {
    if e.Request? {
      UnheardChangesNothing(s, e);
    }
  }

  lemma StandingLapses(s: Server, installed: set<byte>, start: u32, init: seq<Event>, e: Event)
    requires ReflectsStanding(s, installed, start, init) && !IsHeard(e)
    ensures ReflectsStanding(React(s, e), installed, start, init + [e])
  {
    var all := init + [e];
    assert all[..|all| - 1] == init && all[|all| - 1] == e;
    ResetAskedGrows(installed, init, e);
    OtherMoves(s, e);
    hide React;
    hide ResetAsked;
  }

  lemma UnheardAgreesNothing(installed: set<byte>, e: Event, open: bool, blocks: nat, announced: u16)
    requires !IsHeard(e)
    ensures !Opens(installed, e) && !Closes(installed, e) && !TakesBlock(installed, e, open, blocks, announced)
  {
  }

  lemma TransferLapses(s: Server, installed: set<byte>, start: u32, init: seq<Event>, e: Event)
    requires ReflectsTransfer(s, installed, start, init) && s.lastActivityMs == LastHeard(start, init) && !IsHeard(e)
    ensures ReflectsTransfer(React(s, e), installed, start, init + [e])
  {
    hide React;
    hide Opens;
    hide Closes;
    hide TakesBlock;
    hide LastHeard;
    var all := init + [e];
    assert all[..|all| - 1] == init && all[|all| - 1] == e;
    OtherMoves(s, e);
    UnheardAgreesNothing(installed, e, Transfer(installed, start, init), Blocks(installed, start, init),
                         Announced(installed, init));
  }

  lemma OtherIsReflected(s: Server, installed: set<byte>, start: u32, init: seq<Event>, e: Event)
    requires Reflects(s, installed, start, init) && !IsHeard(e)
    ensures Reflects(React(s, e), installed, start, init + [e])
  {
    hide React;
    StandingLapses(s, installed, start, init, e);
    TransferLapses(s, installed, start, init, e);
  }

  /**
   * Over every run of requests and ticks: the session is the one last changed to since S3 last ran out; the level
   * is that of the last key accepted since then and since the last change of session; a transfer is open since
   * a download callback agreed, until an exit or a lapse; the block due is one more than the blocks taken since.
   */
  lemma {:induction false} ServerReflectsHistory(installed: set<byte>, start: u32, events: seq<Event>)
    ensures Reflects(After(installed, start, events), installed, start, events)
  {
    if events != [] {
      var init, e := events[..|events| - 1], events[|events| - 1];
      assert events == init + [e];
      ServerReflectsHistory(installed, start, init);
      if IsHeard(e) {
        RequestIsReflected(After(installed, start, init), installed, start, init, e);
      } else {
        OtherIsReflected(After(installed, start, init), installed, start, init, e);
      }
    }
  }

  /** A tick says that the session has lapsed exactly when it does. */
  lemma TickAnswersExactly(installed: set<byte>, start: u32, events: seq<Event>, now: u32)
    ensures Tick(After(installed, start, events), now).1 == if Lapses(start, events, Timer(now)) then Busy else Ok
  {
    ServerReflectsHistory(installed, start, events);
  }
}
