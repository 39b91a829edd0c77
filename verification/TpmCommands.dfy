/**
 * What a request makes happen, told from register bits and request numbers: every
 * call the protocol allows and the host asks for is made, opening and closing take
 * effect for good, and the data buffer holds what it should.
 */
module TpmCommands {
  import opened Outcomes
  import opened TpmSpec
  import opened TpmTrace
  import opened Words

  // --- Commands -----------------------------------------------------------------------------

  /** What the service answers for what the device answered. */
  function Told(status: ErrorCode): TpmStatus {
    if status == Ok then TpmOk else if status == NoMemory then NoMem else TpmDenied
  }

  /**
   * The event a page asks for: goIdle (bit 1 of the request register) before
   * cmdReady (bit 0) before start (bit 0 of the start register), the first that
   * the protocol allows.
   */
  function Wanted(v: View, page: Page, l: nat, ok: bool): Option<Event> {
    if page.controlRequest & 2 != 0 && Allowed(v, GoIdle(l, ok)) then Some(GoIdle(l, ok))
    else if page.controlRequest & 1 != 0 && Allowed(v, CmdReady(l, ok)) then Some(CmdReady(l, ok))
    else if page.controlStart & 1 != 0 && Allowed(v, Execute(l, ok)) then Some(Execute(l, ok))
    else None
  }

  /** A command request for the active locality, which is open. */
  predicate ForCommand(s: State, req: Request)
    requires |s.localities| == 5
  {
    && req.opcode == 0x0f00_0201 && req.functionId % 0x1_0000 == 0
    && req.locality % 0x100 == s.active < 5 && s.localities[s.active] == Open
  }

  // The call decided on is the one wanted.
  lemma DecidedIsWanted(s: State, ok: bool)
    requires Valid(s) && s.active < 5 && s.localities[s.active] == Open
    ensures var page := s.pages[s.active];
            var call := Decide(page.controlRequest, page.controlStart, s.current, s.bypass);
            Wanted(ViewOf(s), page, s.active, ok) ==
            if call == NoCall then None else Some(EventOf(call, s.active, ok))
  {
    match s.current
    case Idle =>
    case Ready =>
    case Complete =>
  }

  // No bits at all ask for nothing.
  lemma NothingWanted(s: State)
    requires Valid(s) && s.active < 5
    ensures var page := s.pages[s.active];
            page.controlRequest == 0 && page.controlStart == 0 ==>
              Decide(page.controlRequest, page.controlStart, s.current, s.bypass) == NoCall
  {
    assert (0 as bv32) & 2 == 0 && (0 as bv32) & 1 == 0;
  }

  // Through the dispatcher and the cleaning of the page.
  lemma CommandReaches(s: State, req: Request, reply: Reply)
    requires Valid(s) && ForCommand(s, req)
    ensures var (next, answer) := HandleCommand(s, reply);
            Dispatch(s, req, reply) == (Clean(next), answer, 0)
  {
  }

  /**
   * A command request makes exactly the call its page asks for, with the effect
   * that call has, and is answered as the device answers. It is refused exactly
   * when the page asks for nothing the protocol allows.
   */
  lemma CommandCarriedOut(s: State, req: Request, reply: Reply)
    requires Valid(s) && ForCommand(s, req)
    ensures var page, (next, answer, _) := s.pages[s.active], Dispatch(s, req, reply);
            match Wanted(ViewOf(s), page, s.active, reply.status == Ok)
            case Some(ev) =>
              next.log == s.log + [ev] && ViewOf(next) == Apply(ViewOf(s), ev) && answer == Told(reply.status)
            case None =>
              && next.log == s.log && ViewOf(next) == ViewOf(s)
              && answer == if page.controlRequest == 0 && page.controlStart == 0 then InvCrbCtrlData else TpmDenied
  {
    var page := s.pages[s.active];
    var call := Decide(page.controlRequest, page.controlStart, s.current, s.bypass);
    CommandReaches(s, req, reply);
    DecidedIsWanted(s, reply.status == Ok);
    NothingWanted(s);
    CleanLogsNone(HandleCommand(s, reply).0);
    if call != NoCall {
      CalledLogs(s, call, reply);
    }
  }

  // What a call leaves in the active buffer.
  function BufferAfter(s: State, call: Call, reply: Reply): seq<U8>
    requires Valid(s) && s.active < 5
  {
    var ok, data := reply.status == Ok, s.pages[s.active].data;
    if !ok || call == NoCall then data
    else if call == StartCall then reply.data
    else if s.current == Complete then Zeros(0xF80)
    else data
  }

  lemma CalledBuffers(s: State, call: Call, reply: Reply)
    requires Valid(s) && s.active < 5
    ensures var after := Called(s, call, reply).pages;
            && (forall l | 0 <= l < 5 && l != s.active :: after[l] == s.pages[l])
            && after[s.active].data == BufferAfter(s, call, reply)
  {
  }

  lemma HandledBuffers(s: State, reply: Reply)
    requires Valid(s) && s.active < 5
    ensures var page, after := s.pages[s.active], HandleCommand(s, reply).0.pages;
            var call := Decide(page.controlRequest, page.controlStart, s.current, s.bypass);
            && (forall l | 0 <= l < 5 && l != s.active :: after[l] == s.pages[l])
            && after[s.active].data == BufferAfter(s, call, reply)
  {
    var page := s.pages[s.active];
    NothingWanted(s);
    CalledBuffers(s, Decide(page.controlRequest, page.controlStart, s.current, s.bypass), reply);
  }

  lemma CleanKeepsOthers(s: State, next: State)
    requires Valid(s) && Valid(next) && next.active == s.active < 5
    requires forall l | 0 <= l < 5 && l != s.active :: next.pages[l] == s.pages[l]
    ensures forall l | 0 <= l < 5 && l != s.active :: Clean(next).pages[l] == s.pages[l]
    ensures Clean(next).pages[s.active].data == next.pages[s.active].data
  {
  }

  /**
   * The data buffers after a command request: the active one is zeros after a
   * cmdReady or goIdle that leaves Complete, the response after a successful start,
   * and as it was otherwise; the other pages are as they were.
   */
  lemma CommandBuffers(s: State, req: Request, reply: Reply)
    requires Valid(s) && ForCommand(s, req)
    ensures var before, after := s.pages[s.active], Dispatch(s, req, reply).0.pages;
            && (forall l | 0 <= l < 5 && l != s.active :: after[l] == s.pages[l])
            && after[s.active].data ==
               match Wanted(ViewOf(s), before, s.active, reply.status == Ok)
               case Some(Execute(_, ok)) => (if ok then reply.data else before.data)
               case Some(CmdReady(_, ok)) =>
                 (if ok && s.current == Complete then Zeros(0xF80) else before.data)
               case Some(GoIdle(_, ok)) => (if ok && s.current == Complete then Zeros(0xF80) else before.data)
               case _ => before.data
  {
    CommandReaches(s, req, reply);
    DecidedIsWanted(s, reply.status == Ok);
    HandledBuffers(s, reply);
    CleanKeepsOthers(s, HandleCommand(s, reply).0);
  }

  // --- Localities ---------------------------------------------------------------------------

  /** A locality request for an open locality. */
  predicate ForLocality(s: State, req: Request)
    requires |s.localities| == 5
  {
    && req.opcode == 0x0f00_0201 && req.functionId % 0x1_0000 == 1
    && req.locality % 0x100 < 5 && s.localities[req.locality % 0x100] == Open
  }

  /** What its page asks for: a relinquish (bit 1 of the control register), or else access (bit 0). */
  function WantedLocality(v: View, page: Page, l: nat, ok: bool): Option<Event> {
    if page.localityControl & 2 != 0 then
      if Allowed(v, LocalityRelinquish(l, ok)) then Some(LocalityRelinquish(l, ok)) else None
    else if page.localityControl & 1 != 0 && Allowed(v, LocalityRequest(l, ok)) then Some(LocalityRequest(l, ok))
    else None
  }

  lemma LocalityReaches(s: State, req: Request, reply: Reply)
    requires Valid(s) && ForLocality(s, req)
    ensures var (next, answer) := HandleLocalityRequest(s, req.locality % 0x100, reply);
            Dispatch(s, req, reply) == (Clean(next), answer, 0)
  {
  }

  lemma TwoBits(x: bv32)
    ensures x & 3 == 0 <==> x & 2 == 0 && x & 1 == 0
  {
  }

  lemma LocalityHandled(s: State, l: nat, reply: Reply)
    requires Valid(s) && l < 5 && s.localities[l] == Open
    ensures var page, (next, answer) := s.pages[l], HandleLocalityRequest(s, l, reply);
            match WantedLocality(ViewOf(s), page, l, reply.status == Ok)
            case Some(ev) =>
              next.log == s.log + [ev] && ViewOf(next) == Apply(ViewOf(s), ev) && answer == Told(reply.status)
            case None =>
              && next == s
              && answer == if page.localityControl & 3 == 0 then InvCrbCtrlData else TpmDenied
  {
    TwoBits(s.pages[l].localityControl);
  }

  /**
   * A locality request makes exactly the call its page asks for and is answered as
   * the device answers; it is refused exactly when that call is not allowed.
   */
  lemma LocalityCarriedOut(s: State, req: Request, reply: Reply)
    requires Valid(s) && ForLocality(s, req)
    ensures var l := req.locality % 0x100;
            var page, (next, answer, _) := s.pages[l], Dispatch(s, req, reply);
            match WantedLocality(ViewOf(s), page, l, reply.status == Ok)
            case Some(ev) =>
              next.log == s.log + [ev] && ViewOf(next) == Apply(ViewOf(s), ev) && answer == Told(reply.status)
            case None =>
              && next.log == s.log && ViewOf(next) == ViewOf(s)
              && answer == if page.localityControl & 3 == 0 then InvCrbCtrlData else TpmDenied
  {
    LocalityReaches(s, req, reply);
    LocalityHandled(s, req.locality % 0x100, reply);
    CleanLogsNone(HandleLocalityRequest(s, req.locality % 0x100, reply).0);
  }

  lemma CleanKeepsData(s: State)
    requires Valid(s)
    ensures forall l | 0 <= l < 5 :: Clean(s).pages[l].data == s.pages[l].data
  {
  }

  lemma LocalityPages(s: State, l: nat, reply: Reply)
    requires Valid(s) && l < 5 && s.localities[l] == Open
    ensures HandleLocalityRequest(s, l, reply).0.pages ==
            if WantedLocality(ViewOf(s), s.pages[l], l, true).Some? && reply.status == Ok
            then s.pages[l := InitPage(s.base, l, s.interfaceId)] else s.pages
  {
    TwoBits(s.pages[l].localityControl);
  }

  /** A grant or relinquish zeroes the buffer of its locality; all other buffers are as they were. */
  lemma LocalityBuffers(s: State, req: Request, reply: Reply)
    requires Valid(s) && ForLocality(s, req)
    ensures var l, after := req.locality % 0x100, Dispatch(s, req, reply).0.pages;
            && (forall m | 0 <= m < 5 && m != l :: after[m].data == s.pages[m].data)
            && after[l].data ==
               if WantedLocality(ViewOf(s), s.pages[l], l, true).Some? && reply.status == Ok
               then Zeros(0xF80) else s.pages[l].data
  {
    var l := req.locality % 0x100;
    LocalityReaches(s, req, reply);
    CleanKeepsData(HandleLocalityRequest(s, l, reply).0);
    LocalityPages(s, l, reply);
  }

  // --- Everything else ------------------------------------------------------------------------

  /** Start requests that reach no page: for no locality, a closed or inactive one, or nothing known. */
  lemma StartRefusals(s: State, req: Request, reply: Reply)
    requires Valid(s) && req.opcode == 0x0f00_0201
    ensures var l, qualifier := req.locality % 0x100, req.functionId % 0x1_0000;
            var (next, answer, _) := Dispatch(s, req, reply);
            && (l >= 5 ==> answer == InvArg && next.log == s.log)
            && (l < 5 && s.localities[l] == Closed ==> answer == TpmDenied && next.log == s.log)
            && (l < 5 && s.localities[l] == Open && (qualifier >= 2 || (qualifier == 0 && l != s.active)) ==>
                  answer == InvArg && next.log == s.log)
  {
    CleanLogsNone(s);
  }

  /** The requests that concern no locality, by their numbers. */
  lemma PlainRequests(s: State, req: Request, reply: Reply)
    requires Valid(s) && req.opcode !in {0x0f00_0201, 0x1f00_0001}
    ensures Dispatch(s, req, reply) ==
            if req.opcode == 0x0f00_0001 then (s, OkResultsReturned, 0x1_0000)
            else if req.opcode == 0x0f00_0101 then
              if req.functionId == 0x0f00_0301 then (s, OkResultsReturned, 1) else (s, NotSup, 0)
            else if req.opcode == 0x0f00_0301 then
              (s.(registered := true), if s.registered then Already else TpmOk, 0)
            else if req.opcode == 0x0f00_0401 then
              (s.(registered := false), if s.registered then TpmOk else TpmDenied, 0)
            else if req.opcode == 0x0f00_0501 then (s, if s.registered then TpmOk else TpmDenied, 0)
            else (s, NoFunc, 0)
  {
  }

  /** Initialisation and shutdown forget a registration; initialisation opens localities 0 and 1. */
  lemma Restarted(s: State, bypass: bool)
    requires Valid(s)
    ensures !Initialise(s, bypass).registered && !Deinitialise(s).registered
    ensures forall l | 0 <= l < 5 :: Initialise(s, bypass).localities[l] == if l < 2 then Open else Closed
    ensures forall l | 0 <= l < 5 :: Deinitialise(s).localities[l] == Closed
  {
  }

  // --- Managing localities --------------------------------------------------------------------

  /** Operation 0 opens and operation 1 closes the locality, from a source 0xFFxx only. */
  lemma ManagerOpensAndCloses(s: State, req: Request, reply: Reply)
    requires Valid(s) && req.opcode == 0x1f00_0001
    ensures var l, operation := req.locality % 0x100, req.functionId % 0x1_0000;
            Dispatch(s, req, reply) ==
            if req.sourceId / 0x100 != 0xFF then (s, TpmDenied, 0)
            else if l < 5 && operation == 0 then
              (s.(localities := s.localities[l := Open], log := s.log + [Opened(l)]), TpmOk, 0)
            else if l < 5 && operation == 1 then
              (s.(localities := s.localities[l := Closed], log := s.log + [ClosedOff(l)]), TpmOk, 0)
            else (s, InvArg, 0)
  {
  }

  // What may open a locality, and what may close it.
  predicate MayOpen(ev: Event, l: nat) {
    ev == Opened(l) || (ev.Initialised? && l < 2)
  }

  predicate MayClose(ev: Event, l: nat) {
    ev == ClosedOff(l) || ev.Deinitialised? || (ev.Initialised? && l >= 2)
  }

  lemma EventKeeps(v: View, ev: Event, l: nat)
    requires |v.localities| == 5 && l < 5
    ensures |Apply(v, ev).localities| == 5
    ensures !MayOpen(ev, l) && v.localities[l] == Closed ==> Apply(v, ev).localities[l] == Closed
    ensures !MayClose(ev, l) && v.localities[l] == Open ==> Apply(v, ev).localities[l] == Open
  {
  }

  lemma {:induction false} LocalityStays(log: seq<Event>, i: nat, j: nat, l: nat)
    requires i <= j <= |log| && l < 5
    ensures |Replay(log[..i]).localities| == |Replay(log[..j]).localities| == 5
    ensures (forall k | i <= k < j :: !MayOpen(log[k], l)) && Replay(log[..i]).localities[l] == Closed ==>
              Replay(log[..j]).localities[l] == Closed
    ensures (forall k | i <= k < j :: !MayClose(log[k], l)) && Replay(log[..i]).localities[l] == Open ==>
              Replay(log[..j]).localities[l] == Open
    decreases j
  {
    if i < j {
      LocalityStays(log, i, j - 1, l);
      ReplayNext(log, j - 1);
      EventKeeps(Replay(log[..j - 1]), log[j - 1], l);
    } else {
      LocalityCount(log, i);
    }
  }

  lemma LocalityKept(s: State, steps: seq<Step>, l: nat)
    requires Tracked(s) && l < 5
    ensures s.log <= Run(s, steps).log
    ensures var log, n := Run(s, steps).log, |s.log|;
            && ((forall k | n <= k < |log| :: !MayOpen(log[k], l)) && s.localities[l] == Closed ==>
                  Run(s, steps).localities[l] == Closed)
            && ((forall k | n <= k < |log| :: !MayClose(log[k], l)) && s.localities[l] == Open ==>
                  Run(s, steps).localities[l] == Open)
  {
    var last := Run(s, steps);
    RunTracked(s, steps);
    LogGrows(s, steps);
    assert last.log[..|s.log|] == s.log && last.log[..|last.log|] == last.log;
    LocalityStays(last.log, |s.log|, |last.log|, l);
  }

  /**
   * A closed locality stays closed over every run in which nothing opens it, and
   * every start request for it is denied without a device call.
   */
  lemma ClosedForGood(s: State, steps: seq<Step>, l: nat, req: Request, reply: Reply)
    requires Tracked(s) && l < 5 && s.localities[l] == Closed
    requires req.opcode == 0x0f00_0201 && req.locality % 0x100 == l
    requires forall k | |s.log| <= k < |Run(s, steps).log| :: !MayOpen(Run(s, steps).log[k], l)
    ensures Run(s, steps).localities[l] == Closed
    ensures var last := Run(s, steps);
            Dispatch(last, req, reply).1 == TpmDenied && Dispatch(last, req, reply).0.log == last.log
  {
    var last := Run(s, steps);
    LocalityKept(s, steps, l);
    StartRefusals(last, req, reply);
  }

  /** An open locality stays open over every run in which nothing closes it. */
  lemma OpenUntilClosed(s: State, steps: seq<Step>, l: nat)
    requires Tracked(s) && l < 5 && s.localities[l] == Open
    requires forall k | |s.log| <= k < |Run(s, steps).log| :: !MayClose(Run(s, steps).log[k], l)
    ensures Run(s, steps).localities[l] == Open
  {
    LocalityKept(s, steps, l);
  }

  // --- A command gets through -------------------------------------------------------------------

  lemma OneIsBitZero()
    ensures (1 as bv32) & 1 != 0 && (1 as bv32) & 2 == 0
  {
  }

  lemma AskReady(s: State, page: Page, l: nat)
    requires Valid(s) && s.active == l < 5 && s.localities[l] == Open && s.current == Idle
    requires page.controlRequest == 1
    ensures var next := Ask(s, page, QUALIFIER_COMMAND, l);
            && ViewOf(next) == ViewOf(s).(current := Ready) && next.log == s.log + [CmdReady(l, true)]
  {
    var written := Do(s, HostWrite(l, page));
    OneIsBitZero();
    CommandCarriedOut(written, StartRequest(QUALIFIER_COMMAND, l), ACCEPTED);
  }

  // From no active locality to an active one that is ready.
  lemma GetsReady(s: State, l: nat) returns (next: State)
    requires Valid(s) && s.active == NO_ACTIVE_LOCALITY && s.current == Idle && l < 5 && s.localities[l] == Open
    ensures Valid(next) && Reaches(s, next) && ViewOf(next) == ViewOf(s).(active := l, current := Ready)
    ensures next.log == s.log + [LocalityRequest(l, true), CmdReady(l, true)]
  {
    var enter := s.pages[l].(localityControl := 1);
    var wake := s.pages[l].(controlRequest := 1);
    assert Run(s, []) == s;
    AskLocality(s, enter, l);
    ReachesAsk(s, s, enter, QUALIFIER_LOCALITY, l);
    var entered := Ask(s, enter, QUALIFIER_LOCALITY, l);
    AskReady(entered, wake, l);
    ReachesAsk(s, entered, wake, QUALIFIER_COMMAND, l);
    next := Ask(entered, wake, QUALIFIER_COMMAND, l);
  }

  lemma GetsThrough(s: State, l: nat)
    requires Valid(s) && s.active == NO_ACTIVE_LOCALITY && s.current == Idle && l < 5 && s.localities[l] == Open
    ensures exists next ::
              Reaches(s, next) &&
              next.log == s.log + [LocalityRequest(l, true), CmdReady(l, true), Execute(l, true)]
  {
    var ready := GetsReady(s, l);
    var start := s.pages[l].(controlRequest := 0, controlStart := 1);
    AskStart(ready, start, l);
    ReachesAsk(s, ready, start, QUALIFIER_COMMAND, l);
  }

  /** From every initialised service, at localities 0 and 1, some run gets a command executed. */
  lemma CommandGetsThrough(s: State, bypass: bool, l: nat)
    requires Valid(s) && l < 2
    ensures var started := Do(s, Init(bypass));
            exists next ::
              Reaches(started, next) &&
              next.log == started.log + [LocalityRequest(l, true), CmdReady(l, true), Execute(l, true)]
  {
    GetsThrough(Do(s, Init(bypass)), l);
  }
}
