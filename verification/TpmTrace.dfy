/**
 * What every run of the TPM service calls on the device. Replaying the log of
 * calls gives the service's own state, and each call is one the protocol allows
 * where it happens, whatever the host writes and the device answers.
 */
module TpmTrace {
  import opened Outcomes
  import opened TpmSpec
  import opened Words

  /** What the log of calls says about the service. */
  datatype View = View(current: TpmState, active: nat, localities: seq<LocalityState>, bypass: bool)

  function Apply(v: View, ev: Event): View {
    match ev
    case Initialised(bypass) => View(Idle, NO_ACTIVE_LOCALITY, [Open, Open, Closed, Closed, Closed], bypass)
    case Deinitialised => View(Idle, NO_ACTIVE_LOCALITY, [Closed, Closed, Closed, Closed, Closed], v.bypass)
    case Opened(l) => if l < |v.localities| then v.(localities := v.localities[l := Open]) else v
    case ClosedOff(l) => if l < |v.localities| then v.(localities := v.localities[l := Closed]) else v
    case LocalityRequest(l, ok) => if ok then v.(active := l) else v
    case LocalityRelinquish(_, ok) => if ok then v.(active := NO_ACTIVE_LOCALITY) else v
    case CmdReady(_, ok) => if ok then v.(current := Ready) else v
    case GoIdle(_, ok) => if ok then v.(current := Idle) else v
    case Execute(_, ok) => if ok then v.(current := Complete) else v
  }

  function Replay(log: seq<Event>): View {
    if log == [] then View(Idle, NO_ACTIVE_LOCALITY, [Closed, Closed, Closed, Closed, Closed], false)
    else Apply(Replay(log[..|log| - 1]), log[|log| - 1])
  }

  predicate IsOpen(v: View, l: nat) {
    l < |v.localities| && v.localities[l] == Open
  }

  /** A start may go ahead: the service is ready, or is done and may skip idle. */
  predicate Startable(v: View) {
    v.current == Ready || (v.current == Complete && v.bypass)
  }

  /** The calls the protocol allows in a view. */
  predicate Allowed(v: View, ev: Event) {
    match ev
    case LocalityRequest(l, _) => IsOpen(v, l) && v.active in {NO_ACTIVE_LOCALITY, l}
    case LocalityRelinquish(l, _) => IsOpen(v, l) && v.active == l
    case CmdReady(l, _) => IsOpen(v, l) && v.active == l && (v.current == Complete ==> v.bypass)
    case GoIdle(l, _) => IsOpen(v, l) && v.active == l && v.current != Idle
    case Execute(l, _) => IsOpen(v, l) && v.active == l && Startable(v)
    case _ => true
  }

  predicate AllowedAt(log: seq<Event>, i: nat)
    requires i < |log|
  {
    Allowed(Replay(log[..i]), log[i])
  }

  ghost predicate Legal(log: seq<Event>) {
    forall i | 0 <= i < |log| :: AllowedAt(log, i)
  }

  function ViewOf(s: State): View {
    View(s.current, s.active, s.localities, s.bypass)
  }

  /** The log tells the service's state, and every call in it was allowed. */
  ghost predicate Tracked(s: State) {
    Valid(s) && Replay(s.log) == ViewOf(s) && Legal(s.log)
  }

  lemma Extended(log: seq<Event>, ev: Event)
    ensures Replay(log + [ev]) == Apply(Replay(log), ev)
    ensures Legal(log) && Allowed(Replay(log), ev) ==> Legal(log + [ev])
  {
    var longer := log + [ev];
    assert longer[..|log|] == log;
    forall i | 0 <= i < |log|
      ensures AllowedAt(longer, i) == AllowedAt(log, i)
    {
      assert longer[..i] == log[..i] && longer[i] == log[i];
    }
    assert AllowedAt(longer, |log|) == Allowed(Replay(log), ev);
  }

  // The view just after the call at `i`.
  lemma ReplayNext(log: seq<Event>, i: nat)
    requires i < |log|
    ensures Replay(log[..i + 1]) == Apply(Replay(log[..i]), log[i])
  {
    assert log[..i + 1][..i] == log[..i];
  }

  // `next` differs from `s` by at most one logged event, an allowed one.
  ghost predicate OneEvent(s: State, next: State) {
    || (next.log == s.log && ViewOf(next) == ViewOf(s))
    || (exists ev :: Allowed(ViewOf(s), ev) && next.log == s.log + [ev] && ViewOf(next) == Apply(ViewOf(s), ev))
  }

  lemma OneEventTracked(s: State, next: State)
    requires Tracked(s) && Valid(next) && OneEvent(s, next)
    ensures Tracked(next)
  {
    if next.log != s.log {
      var ev :| Allowed(ViewOf(s), ev) && next.log == s.log + [ev] && ViewOf(next) == Apply(ViewOf(s), ev);
      Extended(s.log, ev);
    }
  }

  function EventOf(call: Call, l: nat, ok: bool): Event
    requires call != NoCall
  {
    match call
    case CmdReadyCall => CmdReady(l, ok)
    case GoIdleCall => GoIdle(l, ok)
    case StartCall => Execute(l, ok)
  }

  lemma CalledLogs(s: State, call: Call, reply: Reply)
    requires Valid(s) && s.active < NUM_LOCALITIES && call != NoCall
    ensures var next, ev := Called(s, call, reply), EventOf(call, s.active, reply.status == Ok);
            next.log == s.log + [ev] && ViewOf(next) == Apply(ViewOf(s), ev)
  {
  }

  lemma DecidedIsAllowed(v: View, request: bv32, start: bv32, ok: bool)
    requires IsOpen(v, v.active) && Decide(request, start, v.current, v.bypass) != NoCall
    ensures Allowed(v, EventOf(Decide(request, start, v.current, v.bypass), v.active, ok))
  {
  }

  lemma CommandLogsOne(s: State, reply: Reply)
    requires Valid(s) && s.active < NUM_LOCALITIES && s.localities[s.active] == Open
    ensures OneEvent(s, HandleCommand(s, reply).0)
  {
    var page := s.pages[s.active];
    var call := Decide(page.controlRequest, page.controlStart, s.current, s.bypass);
    if call != NoCall {
      DecidedIsAllowed(ViewOf(s), page.controlRequest, page.controlStart, reply.status == Ok);
      CalledLogs(s, call, reply);
    }
  }

  lemma LocalityLogsOne(s: State, l: nat, reply: Reply)
    requires Valid(s) && l < NUM_LOCALITIES && s.localities[l] == Open
    ensures OneEvent(s, HandleLocalityRequest(s, l, reply).0)
  {
    var ok := reply.status == Ok;
    assert s.active == l ==> Allowed(ViewOf(s), LocalityRelinquish(l, ok));
    assert s.active in {NO_ACTIVE_LOCALITY, l} ==> Allowed(ViewOf(s), LocalityRequest(l, ok));
  }

  lemma CleanLogsNone(s: State)
    requires Valid(s)
    ensures Clean(s).log == s.log && ViewOf(Clean(s)) == ViewOf(s)
  {
  }

  lemma StartLogsOne(s: State, req: Request, reply: Reply)
    requires Valid(s)
    ensures OneEvent(s, StartHandler(s, req, reply).0)
  {
    var qualifier, l := req.functionId % 0x1_0000, req.locality % 0x100;
    if l < NUM_LOCALITIES && s.localities[l] == Open && qualifier == QUALIFIER_COMMAND && l == s.active {
      CommandLogsOne(s, reply);
      CleanLogsNone(HandleCommand(s, reply).0);
    } else if l < NUM_LOCALITIES && s.localities[l] == Open && qualifier == QUALIFIER_LOCALITY {
      LocalityLogsOne(s, l, reply);
      CleanLogsNone(HandleLocalityRequest(s, l, reply).0);
    } else {
      CleanLogsNone(s);
    }
  }

  lemma ManageLogsOne(s: State, req: Request)
    requires Valid(s)
    ensures OneEvent(s, ManageLocality(s, req).0)
  {
    var l := req.locality % 0x100;
    assert Allowed(ViewOf(s), Opened(l)) && Allowed(ViewOf(s), ClosedOff(l));
  }

  lemma DispatchLogsOne(s: State, req: Request, reply: Reply)
    requires Valid(s)
    ensures OneEvent(s, Dispatch(s, req, reply).0)
  {
    if req.opcode == START_FUNCTION {
      StartLogsOne(s, req, reply);
    } else if req.opcode == MANAGE_LOCALITY {
      ManageLogsOne(s, req);
    }
  }

  lemma InitLogsOne(s: State, bypass: bool)
    requires Valid(s)
    ensures OneEvent(s, Initialise(s, bypass)) && OneEvent(s, Deinitialise(s))
  {
    assert Allowed(ViewOf(s), Initialised(bypass));
    assert Allowed(ViewOf(s), Deinitialised);
  }

  lemma DoTracked(s: State, step: Step)
    requires Tracked(s)
    ensures Tracked(Do(s, step))
  {
    match step
    case HostWrite(_, _) => OneEventTracked(s, Do(s, step));
    case Message(req, reply) =>
      DispatchLogsOne(s, req, reply);
      OneEventTracked(s, Do(s, step));
    case Init(bypass) =>
      InitLogsOne(s, bypass);
      OneEventTracked(s, Do(s, step));
    case Deinit =>
      InitLogsOne(s, true);
      OneEventTracked(s, Do(s, step));
  }

  lemma {:induction false} RunTracked(s: State, steps: seq<Step>)
    requires Tracked(s)
    ensures Tracked(Run(s, steps))
    decreases |steps|
  {
    if steps != [] {
      DoTracked(s, steps[0]);
      RunTracked(Do(s, steps[0]), steps[1..]);
    }
  }

  /** Every run, from construction on. */
  lemma EveryRunTracked(pages: seq<Page>, base: nat, steps: seq<Step>)
    requires |pages| == NUM_LOCALITIES && base + NUM_LOCALITIES * PAGE_SIZE <= 0x1_0000_0000_0000_0000
    ensures Tracked(Run(New(pages, base), steps))
  {
    RunTracked(New(pages, base), steps);
  }

  // --- What a legal log cannot do -----------------------------------------------------

  predicate Resets(ev: Event) {
    ev.Initialised? || ev.Deinitialised?
  }

  /** A reset that finds locality `l` active drops it without giving it back to the device. */
  predicate Drops(log: seq<Event>, k: nat, l: nat)
    requires k < |log|
  {
    Resets(log[k]) && Replay(log[..k]).active == l
  }

  lemma StaysActive(v: View, ev: Event, l: nat)
    requires Allowed(v, ev) && v.active == l < NUM_LOCALITIES
    requires ev != LocalityRelinquish(l, true) && !Resets(ev)
    ensures Apply(v, ev).active == l
  {
  }

  // The locality stays active until it is relinquished or a reset drops it.
  lemma {:induction false} ActiveUntil(log: seq<Event>, i: nat, j: nat, l: nat)
    requires Legal(log) && i < j <= |log| && log[i] == LocalityRequest(l, true) && l < NUM_LOCALITIES
    requires forall k | i < k < j :: log[k] != LocalityRelinquish(l, true) && !Drops(log, k, l)
    ensures Replay(log[..j]).active == l
    decreases j
  {
    ReplayNext(log, j - 1);
    if i < j - 1 {
      ActiveUntil(log, i, j - 1, l);
      assert AllowedAt(log, j - 1) && !Drops(log, j - 1, l);
      StaysActive(Replay(log[..j - 1]), log[j - 1], l);
    }
  }

  lemma {:induction false} LocalityCount(log: seq<Event>, i: nat)
    requires i <= |log|
    ensures |Replay(log[..i]).localities| == NUM_LOCALITIES
  {
    if i > 0 {
      ReplayNext(log, i - 1);
      LocalityCount(log, i - 1);
    }
  }

  /**
   * Between a successful request for one locality and a successful request for
   * another lies a successful relinquish of the first, or a reset that dropped it.
   */
  lemma LocalitiesExclude(log: seq<Event>, i: nat, j: nat, l: nat, m: nat)
    requires Legal(log) && i < j < |log| && l != m
    requires log[i] == LocalityRequest(l, true) && log[j] == LocalityRequest(m, true)
    ensures exists k | i < k < j :: log[k] == LocalityRelinquish(l, true) || Drops(log, k, l)
  {
    assert AllowedAt(log, i) && AllowedAt(log, j);
    LocalityCount(log, i);
    if forall k | i < k < j :: log[k] != LocalityRelinquish(l, true) && !Drops(log, k, l) {
      ActiveUntil(log, i, j, l);
    }
  }

  /**
   * What the device holds granted, going by what its polls told: a reset of the
   * service does not reach it. A request or relinquish whose poll timed out counts
   * as having had no effect, although the device may still act on it later.
   */
  function Held(log: seq<Event>): set<nat> {
    if log == [] then {}
    else
      var before := Held(log[..|log| - 1]);
      match log[|log| - 1]
      case LocalityRequest(l, ok) => if ok then before + {l} else before
      case LocalityRelinquish(l, ok) => if ok then before - {l} else before
      case _ => before
  }

  // What the device holds just after the call at `i`.
  lemma HeldNext(log: seq<Event>, i: nat)
    requires i < |log|
    ensures forall l :: l in Held(log[..i + 1]) <==>
                        log[i] == LocalityRequest(l, true) ||
                        (l in Held(log[..i]) && log[i] != LocalityRelinquish(l, true))
  {
    assert log[..i + 1][..i] == log[..i];
  }

  lemma {:induction false} ActiveIsHeld(log: seq<Event>, n: nat)
    requires n <= |log| && Replay(log[..n]).active < NUM_LOCALITIES
    ensures Replay(log[..n]).active in Held(log[..n])
  {
    ReplayNext(log, n - 1);
    HeldNext(log, n - 1);
    if Replay(log[..n]).active == Replay(log[..n - 1]).active {
      ActiveIsHeld(log, n - 1);
    }
  }

  lemma {:induction false} HeldUntil(log: seq<Event>, i: nat, j: nat, l: nat)
    requires i <= j <= |log| && l in Held(log[..i])
    requires forall k | i <= k < j :: log[k] != LocalityRelinquish(l, true)
    ensures l in Held(log[..j])
    decreases j
  {
    if i < j {
      HeldUntil(log, i, j - 1, l);
      HeldNext(log, j - 1);
    }
  }

  // A locality the device holds was requested, and not relinquished since.
  lemma {:induction false} HeldSince(log: seq<Event>, n: nat, l: nat) returns (i: nat)
    requires n <= |log| && l in Held(log[..n])
    ensures i < n && log[i] == LocalityRequest(l, true)
    ensures forall k | i < k < n :: log[k] != LocalityRelinquish(l, true)
  {
    HeldNext(log, n - 1);
    if log[n - 1] == LocalityRequest(l, true) {
      i := n - 1;
    } else {
      i := HeldSince(log, n - 1, l);
    }
  }

  /** The device never holds two localities at once. */
  ghost predicate Exclusive(log: seq<Event>) {
    forall n, l, m | 0 <= n <= |log| && l in Held(log[..n]) && m in Held(log[..n]) :: l == m
  }

  predicate GrantsOther(ev: Event, l: nat) {
    ev.LocalityRequest? && ev.ok && ev.locality != l
  }

  /** Whatever a reset dropped is relinquished before the device grants another locality. */
  ghost predicate DroppedAreReturned(log: seq<Event>) {
    forall k, j, l: nat | 0 <= k < j < |log| && l < NUM_LOCALITIES && Drops(log, k, l) && GrantsOther(log[j], l) ::
      exists r | k < r < j :: log[r] == LocalityRelinquish(l, true)
  }

  lemma DropThenGrant(log: seq<Event>, k: nat, j: nat, l: nat)
    requires k < j < |log| && l < NUM_LOCALITIES && Drops(log, k, l) && GrantsOther(log[j], l)
    requires forall r | k < r < j :: log[r] != LocalityRelinquish(l, true)
    ensures !Exclusive(log)
  {
    ActiveIsHeld(log, k);
    HeldUntil(log, k, j + 1, l);
    HeldNext(log, j);
    assert l in Held(log[..j + 1]) && log[j].locality in Held(log[..j + 1]);
  }

  lemma TwoHeld(log: seq<Event>, i: nat, j: nat, n: nat, l: nat, m: nat)
    requires Legal(log) && i < j < n <= |log| && l != m
    requires log[i] == LocalityRequest(l, true) && log[j] == LocalityRequest(m, true)
    requires forall k | i < k < n :: log[k] != LocalityRelinquish(l, true)
    ensures !DroppedAreReturned(log)
  {
    assert AllowedAt(log, i);
    LocalityCount(log, i);
    LocalitiesExclude(log, i, j, l, m);
    var k :| i < k < j && Drops(log, k, l);
    assert GrantsOther(log[j], l);
  }

  /**
   * Across resets too, the device never holds two localities at once exactly
   * when whatever a reset dropped is relinquished before another is granted.
   */
  lemma ExclusionIff(log: seq<Event>)
    requires Legal(log)
    ensures Exclusive(log) <==> DroppedAreReturned(log)
  {
    if !DroppedAreReturned(log) {
      var k, j, l: nat :|
        && 0 <= k < j < |log| && l < NUM_LOCALITIES && Drops(log, k, l) && GrantsOther(log[j], l)
        && !exists r | k < r < j :: log[r] == LocalityRelinquish(l, true);
      DropThenGrant(log, k, j, l);
    }
    if !Exclusive(log) {
      var n, l, m :| 0 <= n <= |log| && l in Held(log[..n]) && m in Held(log[..n]) && l != m;
      var i := HeldSince(log, n, l);
      var j := HeldSince(log, n, m);
      if i < j {
        TwoHeld(log, i, j, n, l, m);
      } else {
        TwoHeld(log, j, i, n, m, l);
      }
    }
  }

  // An active locality was requested, and has not been given up since.
  lemma {:induction false} ActiveSince(log: seq<Event>, j: nat, l: nat) returns (i: nat)
    requires j <= |log| && Replay(log[..j]).active == l && l < NUM_LOCALITIES
    ensures i < j && log[i] == LocalityRequest(l, true)
    ensures forall k | i < k < j :: !log[k].LocalityRelinquish? || !log[k].ok
    ensures forall k | i < k < j :: !Resets(log[k])
  {
    ReplayNext(log, j - 1);
    if log[j - 1] == LocalityRequest(l, true) {
      i := j - 1;
    } else {
      i := ActiveSince(log, j - 1, l);
    }
  }

  predicate IsCommand(ev: Event) {
    ev.CmdReady? || ev.GoIdle? || ev.Execute?
  }

  /** A command reaches the device only at a locality the device has granted and still holds. */
  lemma CommandsAreGranted(log: seq<Event>, j: nat) returns (i: nat)
    requires Legal(log) && j < |log| && IsCommand(log[j])
    ensures i < j && log[i] == LocalityRequest(log[j].locality, true)
    ensures forall k | i < k < j :: !log[k].LocalityRelinquish? || !log[k].ok
    ensures forall k | i < k < j :: !Resets(log[k])
  {
    assert AllowedAt(log, j);
    LocalityCount(log, j);
    i := ActiveSince(log, j, log[j].locality);
  }

  lemma {:induction false} CompleteUntil(log: seq<Event>, i: nat, j: nat)
    requires Legal(log) && i < j <= |log| && log[i].Execute? && log[i].ok
    requires !Replay(log[..i]).bypass
    requires forall k | i < k < j :: !(log[k].GoIdle? && log[k].ok) && !Resets(log[k])
    ensures Replay(log[..j]).current == Complete && !Replay(log[..j]).bypass
    decreases j
  {
    ReplayNext(log, j - 1);
    assert AllowedAt(log, j - 1);
    if i < j - 1 {
      CompleteUntil(log, i, j - 1);
    }
  }

  /**
   * Without idle bypass, no command follows a successful start until a successful
   * goIdle: every later command call has one before it, or a reset, or is one.
   */
  lemma StartThenIdle(log: seq<Event>, i: nat, j: nat)
    requires Legal(log) && i < j < |log| && log[i].Execute? && log[i].ok
    requires !Replay(log[..i]).bypass
    requires IsCommand(log[j]) && !log[j].GoIdle?
    ensures exists k | i < k < j :: (log[k].GoIdle? && log[k].ok) || Resets(log[k])
  {
    assert AllowedAt(log, j);
    if forall k | i < k < j :: !(log[k].GoIdle? && log[k].ok) && !Resets(log[k]) {
      CompleteUntil(log, i, j);
    }
  }

  // --- Answers ----------------------------------------------------------------------------

  /** A device call that succeeded. */
  predicate Succeeded(ev: Event) {
    match ev
    case LocalityRequest(_, ok) => ok
    case LocalityRelinquish(_, ok) => ok
    case CmdReady(_, ok) => ok
    case GoIdle(_, ok) => ok
    case Execute(_, ok) => ok
    case _ => false
  }

  // Exactly one call was made since `before`, and it succeeded.
  ghost predicate DidOne(before: seq<Event>, after: seq<Event>) {
    |after| == |before| + 1 && Succeeded(after[|before|])
  }

  lemma CommandAnswered(s: State, reply: Reply)
    requires Valid(s) && s.active < NUM_LOCALITIES
    ensures HandleCommand(s, reply).1 == TpmOk <==> DidOne(s.log, HandleCommand(s, reply).0.log)
  {
    var page := s.pages[s.active];
    var call := Decide(page.controlRequest, page.controlStart, s.current, s.bypass);
    if call != NoCall {
      CalledLogs(s, call, reply);
    }
  }

  lemma LocalityAnswered(s: State, l: nat, reply: Reply)
    requires Valid(s) && l < NUM_LOCALITIES
    ensures HandleLocalityRequest(s, l, reply).1 == TpmOk <==>
            DidOne(s.log, HandleLocalityRequest(s, l, reply).0.log)
  {
  }

  /** The host is told Ok exactly when its start request made one device call and that succeeded. */
  lemma OkMeansDone(s: State, req: Request, reply: Reply)
    requires Valid(s)
    ensures StartHandler(s, req, reply).1 == TpmOk <==> DidOne(s.log, StartHandler(s, req, reply).0.log)
  {
    var qualifier, l := req.functionId % 0x1_0000, req.locality % 0x100;
    if l < NUM_LOCALITIES && s.localities[l] == Open && qualifier == QUALIFIER_COMMAND && l == s.active {
      CommandAnswered(s, reply);
      CleanLogsNone(HandleCommand(s, reply).0);
    } else if l < NUM_LOCALITIES && s.localities[l] == Open && qualifier == QUALIFIER_LOCALITY {
      LocalityAnswered(s, l, reply);
      CleanLogsNone(HandleLocalityRequest(s, l, reply).0);
    } else {
      CleanLogsNone(s);
    }
  }

  lemma CommandKeepsLocalities(s: State, reply: Reply)
    requires Valid(s) && s.active < NUM_LOCALITIES
    ensures HandleCommand(s, reply).0.localities == s.localities
  {
    var page := s.pages[s.active];
    var call := Decide(page.controlRequest, page.controlStart, s.current, s.bypass);
    if call != NoCall {
      CalledLogs(s, call, reply);
    }
  }

  lemma StartKeepsLocalities(s: State, req: Request, reply: Reply)
    requires Valid(s)
    ensures StartHandler(s, req, reply).0.localities == s.localities
  {
    var qualifier, l := req.functionId % 0x1_0000, req.locality % 0x100;
    if l < NUM_LOCALITIES && s.localities[l] == Open && qualifier == QUALIFIER_COMMAND && l == s.active {
      CommandKeepsLocalities(s, reply);
      CleanLogsNone(HandleCommand(s, reply).0);
    } else if l < NUM_LOCALITIES && s.localities[l] == Open && qualifier == QUALIFIER_LOCALITY {
      CleanLogsNone(HandleLocalityRequest(s, l, reply).0);
    } else {
      CleanLogsNone(s);
    }
  }

  /**
   * Only a manager opens or closes localities, one at a time, and doing so
   * neither relinquishes the active locality nor disturbs the command state.
   */
  lemma OnlyManagersOpen(s: State, req: Request, reply: Reply)
    requires Valid(s)
    ensures var next := Dispatch(s, req, reply).0;
            && (next.localities != s.localities ==> req.opcode == MANAGE_LOCALITY && req.sourceId / 0x100 == 0xFF)
            && (forall l | 0 <= l < NUM_LOCALITIES && l != req.locality % 0x100 ::
                  next.localities[l] == s.localities[l])
            && (req.opcode == MANAGE_LOCALITY ==>
                  next.active == s.active && next.current == s.current && next.pages == s.pages)
  {
    if req.opcode == START_FUNCTION {
      StartKeepsLocalities(s, req, reply);
    }
  }

  // --- Readiness does not belong to a locality ------------------------------------------

  const ACCEPTED: Reply := Reply(Ok, Zeros(CRB_DATA_BUFFER_SIZE))

  function StartRequest(qualifier: U16, l: nat): Request
    requires l < NUM_LOCALITIES
  {
    Request(START_FUNCTION, qualifier, l, 0)
  }

  // The host sets one control register of page `l`, then sends a start request for it.
  function Ask(s: State, page: Page, qualifier: U16, l: nat): (next: State)
    requires Valid(s) && l < NUM_LOCALITIES
    ensures Valid(next)
  {
    Do(Do(s, HostWrite(l, page)), Message(StartRequest(qualifier, l), ACCEPTED))
  }

  // A manager opens locality `l`.
  function OpenUp(s: State, l: nat): (next: State)
    requires Valid(s) && l < NUM_LOCALITIES
    ensures Valid(next)
  {
    Do(s, Message(Request(MANAGE_LOCALITY, LOCALITY_OPEN, l, 0xFF00), ACCEPTED))
  }

  lemma AskRelinquish(s: State, page: Page, l: nat)
    requires Valid(s) && s.active == l < NUM_LOCALITIES && s.localities[l] == Open
    requires page.localityControl == RELINQUISH
    ensures var next := Ask(s, page, QUALIFIER_LOCALITY, l);
            && ViewOf(next) == ViewOf(s).(active := NO_ACTIVE_LOCALITY)
            && next.log == s.log + [LocalityRelinquish(l, true)]
  {
  }

  lemma AskLocality(s: State, page: Page, l: nat)
    requires Valid(s) && s.active == NO_ACTIVE_LOCALITY && l < NUM_LOCALITIES && s.localities[l] == Open
    requires page.localityControl == REQUEST_ACCESS
    ensures var next := Ask(s, page, QUALIFIER_LOCALITY, l);
            && ViewOf(next) == ViewOf(s).(active := l)
            && next.log == s.log + [LocalityRequest(l, true)]
  {
  }

  lemma AskStart(s: State, page: Page, l: nat)
    requires Valid(s) && s.active == l < NUM_LOCALITIES && s.localities[l] == Open && Startable(ViewOf(s))
    requires page.controlRequest == 0 && page.controlStart == START
    ensures Ask(s, page, QUALIFIER_COMMAND, l).log == s.log + [Execute(l, true)]
  {
  }

  ghost predicate Reaches(s: State, next: State)
    requires Valid(s)
  {
    exists steps :: Run(s, steps) == next
  }

  lemma {:induction false} RunAppend(s: State, steps: seq<Step>, step: Step)
    requires Valid(s)
    ensures Run(s, steps + [step]) == Do(Run(s, steps), step)
    decreases |steps|
  {
    if steps == [] {
      assert steps + [step] == [step];
      assert [step][1..] == [];
    } else {
      assert (steps + [step])[1..] == steps[1..] + [step];
      RunAppend(Do(s, steps[0]), steps[1..], step);
    }
  }

  lemma ReachesNext(s: State, next: State, step: Step)
    requires Valid(s) && Valid(next) && Reaches(s, next)
    ensures Reaches(s, Do(next, step))
  {
    var steps :| Run(s, steps) == next;
    RunAppend(s, steps, step);
  }

  lemma ReachesAsk(s: State, next: State, page: Page, qualifier: U16, l: nat)
    requires Valid(s) && Valid(next) && Reaches(s, next) && l < NUM_LOCALITIES
    ensures Reaches(s, Ask(next, page, qualifier, l))
  {
    ReachesNext(s, next, HostWrite(l, page));
    ReachesNext(s, Do(next, HostWrite(l, page)), Message(StartRequest(qualifier, l), ACCEPTED));
  }

  /** A call that makes a locality startable, or loses all state. */
  predicate Renews(ev: Event) {
    (ev.CmdReady? && ev.ok) || (ev.Execute? && ev.ok) || Resets(ev)
  }

  /**
   * Since the log was `before`, locality `m` was granted and started a command
   * with nothing renewing readiness on the way.
   */
  ghost predicate StartsInherited(before: seq<Event>, log: seq<Event>, m: nat) {
    exists i, j ::
      && |before| <= i < j < |log| && log[i] == LocalityRequest(m, true)
      && log[j].Execute? && log[j].locality == m
      && forall k | |before| <= k < j :: !Renews(log[k])
  }

  // Readiness that nothing renewed was there before.
  lemma {:induction false} WasStartable(log: seq<Event>, i: nat, j: nat)
    requires i <= j <= |log| && Startable(Replay(log[..j]))
    requires forall k | i <= k < j :: !Renews(log[k])
    ensures Startable(Replay(log[..i]))
    decreases j
  {
    if i < j {
      ReplayNext(log, j - 1);
      WasStartable(log, i, j - 1);
    }
  }

  lemma StepLogs(s: State, step: Step)
    requires Valid(s)
    ensures s.log <= Do(s, step).log
  {
    if step.Message? {
      DispatchLogsOne(s, step.req, step.reply);
    }
  }

  lemma {:induction false} LogGrows(s: State, steps: seq<Step>)
    requires Tracked(s)
    ensures s.log <= Run(s, steps).log
    decreases |steps|
  {
    if steps != [] {
      var next := Do(s, steps[0]);
      assert s.log <= next.log by {
        StepLogs(s, steps[0]);
      }
      DoTracked(s, steps[0]);
      LogGrows(next, steps[1..]);
    }
  }

  // Some steps on from `s`, with the commands as they were and nothing renewed.
  ghost predicate Onward(s: State, next: State)
    requires Valid(s)
  {
    && Valid(next) && Reaches(s, next) && next.current == s.current && next.bypass == s.bypass
    && s.log <= next.log
    && forall k | |s.log| <= k < |next.log| :: !Renews(next.log[k])
  }

  lemma OnwardOpened(s: State, mid: State, l: nat)
    requires Valid(s) && Onward(s, mid) && l < NUM_LOCALITIES
    ensures Onward(s, OpenUp(mid, l)) && OpenUp(mid, l).localities[l] == Open
    ensures OpenUp(mid, l).active == mid.active
  {
    ReachesNext(s, mid, Message(Request(MANAGE_LOCALITY, LOCALITY_OPEN, l, 0xFF00), ACCEPTED));
    assert OpenUp(mid, l).log == mid.log + [Opened(l)];
  }

  lemma OnwardLeft(s: State, mid: State) returns (next: State)
    requires Valid(s) && Onward(s, mid) && mid.active < NUM_LOCALITIES && mid.localities[mid.active] == Open
    ensures Onward(s, next) && next.active == NO_ACTIVE_LOCALITY
  {
    var l := mid.active;
    var leave := mid.pages[l].(localityControl := RELINQUISH);
    AskRelinquish(mid, leave, l);
    ReachesAsk(s, mid, leave, QUALIFIER_LOCALITY, l);
    next := Ask(mid, leave, QUALIFIER_LOCALITY, l);
  }

  lemma OnwardEntered(s: State, mid: State, m: nat) returns (next: State)
    requires Valid(s) && Onward(s, mid) && mid.active == NO_ACTIVE_LOCALITY
    requires m < NUM_LOCALITIES && mid.localities[m] == Open
    ensures Onward(s, next) && IsOpen(ViewOf(next), m) && next.active == m
    ensures |s.log| < |next.log| && next.log[|next.log| - 1] == LocalityRequest(m, true)
  {
    var enter := mid.pages[m].(localityControl := REQUEST_ACCESS);
    AskLocality(mid, enter, m);
    ReachesAsk(s, mid, enter, QUALIFIER_LOCALITY, m);
    next := Ask(mid, enter, QUALIFIER_LOCALITY, m);
  }

  // Locality `m` takes over, from whichever locality is active.
  lemma TakeOver(s: State, m: nat) returns (next: State)
    requires Valid(s) && m < NUM_LOCALITIES
    ensures Onward(s, next) && IsOpen(ViewOf(next), m) && next.active == m
    ensures |s.log| < |next.log| && next.log[|next.log| - 1] == LocalityRequest(m, true)
  {
    assert Run(s, []) == s;
    next := s;
    if s.active < NUM_LOCALITIES {
      OnwardOpened(s, s, s.active);
      next := OnwardLeft(s, OpenUp(s, s.active));
    }
    OnwardOpened(s, next, m);
    next := OnwardEntered(s, OpenUp(next, m), m);
  }

  lemma InheritedStart(s: State, m: nat)
    requires Valid(s) && m < NUM_LOCALITIES && Startable(ViewOf(s))
    ensures exists next :: Reaches(s, next) && StartsInherited(s.log, next.log, m)
  {
    var taken := TakeOver(s, m);
    var start := s.pages[m].(controlRequest := 0, controlStart := START);
    AskStart(taken, start, m);
    ReachesAsk(s, taken, start, QUALIFIER_COMMAND, m);
    var next := Ask(taken, start, QUALIFIER_COMMAND, m);
    assert next.log[|taken.log| - 1] == LocalityRequest(m, true) && next.log[|taken.log|] == Execute(m, true);
    assert StartsInherited(s.log, next.log, m);
  }

  lemma InheritedWasStartable(before: seq<Event>, log: seq<Event>, m: nat)
    requires Legal(log) && before <= log && StartsInherited(before, log, m)
    ensures Startable(Replay(before))
  {
    var i, j :|
      && |before| <= i < j < |log| && log[i] == LocalityRequest(m, true)
      && log[j].Execute? && log[j].locality == m
      && forall k | |before| <= k < j :: !Renews(log[k]);
    assert AllowedAt(log, j);
    WasStartable(log, |before|, j);
    assert log[..|before|] == before;
  }

  /**
   * Any locality can be granted and start a command without anything renewing
   * readiness exactly when the state at the hand-over is startable, whichever
   * locality made it so: readiness outlives the locality that asked for it.
   */
  lemma ReadinessOutlivesLocality(s: State, m: nat)
    requires Tracked(s) && m < NUM_LOCALITIES
    ensures (exists next :: Reaches(s, next) && StartsInherited(s.log, next.log, m)) <==> Startable(ViewOf(s))
  {
    if Startable(ViewOf(s)) {
      InheritedStart(s, m);
    }
    if next :| Reaches(s, next) && StartsInherited(s.log, next.log, m) {
      var steps :| Run(s, steps) == next;
      RunTracked(s, steps);
      LogGrows(s, steps);
      InheritedWasStartable(s.log, next.log, m);
    }
  }

  // After a reset and a grant of another locality the device holds both.
  lemma DroppedStaysHeld(log: seq<Event>, l: nat, m: nat, bypass: bool)
    requires Replay(log).active == l < NUM_LOCALITIES && l != m
    ensures var longer := log + [Initialised(bypass), LocalityRequest(m, true)];
            {l, m} <= Held(longer) && !Exclusive(longer)
  {
    var longer, n := log + [Initialised(bypass), LocalityRequest(m, true)], |log|;
    assert longer[..n] == log && longer[..n + 2] == longer;
    ActiveIsHeld(longer, n);
    HeldUntil(longer, n, n + 2, l);
    HeldNext(longer, n + 1);
  }

  /**
   * A reset forgets the active locality without giving it back: afterwards the
   * service gets another one granted while the device still holds the first.
   */
  lemma ResetForgetsLocality(s: State, bypass: bool, enter: Page) returns (i: nat)
    requires Tracked(s) && s.active !in {1, NO_ACTIVE_LOCALITY} && enter.localityControl == REQUEST_ACCESS
    ensures var next := Ask(Do(s, Init(bypass)), enter, QUALIFIER_LOCALITY, 1);
            && next.active == 1 && next.log == s.log + [Initialised(bypass), LocalityRequest(1, true)]
            && i < |s.log| && next.log[i] == LocalityRequest(s.active, true)
            && (forall k | i < k < |next.log| :: next.log[k] != LocalityRelinquish(s.active, true))
            && {s.active, 1} <= Held(next.log) && !Exclusive(next.log)
  {
    AskLocality(Do(s, Init(bypass)), enter, 1);
    assert s.log[..|s.log|] == s.log;
    i := ActiveSince(s.log, |s.log|, s.active);
    DroppedStaysHeld(s.log, s.active, 1, bypass);
  }
}
