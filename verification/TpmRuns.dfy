/**
 * The service and the library together. Over a whole run the host cannot tell
 * which interface its TPM has: what every start request is answered, and what the
 * control pages hold, is the same through a FIFO as through a CRB, as long as the
 * FIFO serves the starts at all.
 */
module TpmRuns {
  import opened Outcomes
  import opened TpmSpec
  import opened SstSpec
  import opened SstTheorems
  import opened Words

  /** Every page has a data buffer of the size of the record. */
  ghost predicate FullPages(s: State) {
    Valid(s) && forall l | 0 <= l < NUM_LOCALITIES :: |s.pages[l].data| == CAPACITY
  }

  predicate FullStep(step: Step) {
    step.HostWrite? ==> |step.page.data| == CAPACITY
  }

  /** The request makes the service start a command on its device. */
  predicate Starts(s: State, req: Request)
    requires |s.pages| == |s.localities| == NUM_LOCALITIES
  {
    && req.opcode == START_FUNCTION
    && req.functionId % 0x1_0000 == QUALIFIER_COMMAND
    && req.locality % 0x100 == s.active < NUM_LOCALITIES
    && s.localities[s.active] == Open
    && Decide(s.pages[s.active].controlRequest, s.pages[s.active].controlStart, s.current, s.bypass) == StartCall
  }

  predicate StartsAt(s: State, step: Step)
    requires |s.pages| == |s.localities| == NUM_LOCALITIES
  {
    step.Message? && Starts(s, step.req)
  }

  /** The step with the device's answer in place, if it starts a command; other calls keep theirs. */
  function Answered(s: State, tpm: Tpm, dev: Device, step: Step): (r: Step)
    requires FullPages(s) && FullStep(step) && |dev.buffer| == CAPACITY
    ensures FullStep(r) && (StartsAt(s, r) ==> |r.reply.data| == CAPACITY)
  {
    if StartsAt(s, step) then
      var (status, data) := Start(tpm, dev, s.pages[s.active]);
      Message(step.req, Reply(status, data))
    else step
  }

  // --- One start request ------------------------------------------------------------------

  lemma CommandStarts(s: State, reply: Reply)
    requires Valid(s) && s.active < NUM_LOCALITIES
    requires Decide(s.pages[s.active].controlRequest, s.pages[s.active].controlStart, s.current, s.bypass) == StartCall
    ensures HandleCommand(s, reply) == (Called(s, StartCall, reply), ConvertError(reply.status))
  {
    assert START & 0 == 0;
  }

  /**
   * A start request that reaches the device leaves in the active page's buffer
   * what the library's start leaves, is complete exactly on success, and gets
   * the library's answer.
   */
  lemma StartReachesPage(s: State, req: Request, tpm: Tpm, dev: Device)
    requires FullPages(s) && |dev.buffer| == CAPACITY && Starts(s, req)
    ensures var (status, data) := Start(tpm, dev, s.pages[s.active]);
            var (next, answer) := StartHandler(s, req, Reply(status, data));
            && next.pages[s.active].data == data && answer == ConvertError(status)
            && next.current == (if status == Ok then Complete else s.current)
            && next.log == s.log + [Execute(s.active, status == Ok)]
            && forall l | 0 <= l < NUM_LOCALITIES && l != s.active :: next.pages[l] == s.pages[l]
  {
    var (status, data) := Start(tpm, dev, s.pages[s.active]);
    CommandStarts(s, Reply(status, data));
  }

  // --- Sizes --------------------------------------------------------------------------------

  lemma CleanIsFull(s: State)
    requires FullPages(s)
    ensures FullPages(Clean(s))
  {
  }

  lemma CalledIsFull(s: State, call: Call, reply: Reply)
    requires FullPages(s) && s.active < NUM_LOCALITIES && (call == StartCall ==> |reply.data| == CAPACITY)
    ensures FullPages(Called(s, call, reply))
  {
    var pages := Called(s, call, reply).pages;
    assert forall l | 0 <= l < NUM_LOCALITIES && l != s.active :: pages[l] == s.pages[l];
    assert pages[s.active].data in {s.pages[s.active].data, Zeros(CRB_DATA_BUFFER_SIZE), reply.data};
  }

  lemma CommandIsFull(s: State, reply: Reply)
    requires FullPages(s) && s.active < NUM_LOCALITIES
    requires var page := s.pages[s.active];
             Decide(page.controlRequest, page.controlStart, s.current, s.bypass) == StartCall ==>
               |reply.data| == CAPACITY
    ensures FullPages(HandleCommand(s, reply).0)
  {
    var page := s.pages[s.active];
    var call := Decide(page.controlRequest, page.controlStart, s.current, s.bypass);
    CalledIsFull(s, call, reply);
  }

  lemma LocalityIsFull(s: State, l: nat, reply: Reply)
    requires FullPages(s) && l < NUM_LOCALITIES
    ensures FullPages(HandleLocalityRequest(s, l, reply).0)
  {
    var next := HandleLocalityRequest(s, l, reply).0;
    assert next.pages in {s.pages, s.pages[l := InitPage(s.base, l, s.interfaceId)]};
  }

  lemma StartIsFull(s: State, req: Request, reply: Reply)
    requires FullPages(s) && req.opcode == START_FUNCTION && (Starts(s, req) ==> |reply.data| == CAPACITY)
    ensures FullPages(StartHandler(s, req, reply).0)
  {
    var qualifier, l := req.functionId % 0x1_0000, req.locality % 0x100;
    if l < NUM_LOCALITIES && s.localities[l] == Open && qualifier == QUALIFIER_COMMAND && l == s.active {
      CommandIsFull(s, reply);
      CleanIsFull(HandleCommand(s, reply).0);
    } else if l < NUM_LOCALITIES && s.localities[l] == Open && qualifier == QUALIFIER_LOCALITY {
      LocalityIsFull(s, l, reply);
      CleanIsFull(HandleLocalityRequest(s, l, reply).0);
    } else {
      CleanIsFull(s);
    }
  }

  lemma StepIsFull(s: State, step: Step)
    requires FullPages(s) && FullStep(step) && (StartsAt(s, step) ==> |step.reply.data| == CAPACITY)
    ensures FullPages(Do(s, step))
  {
    if step.Message? {
      if step.req.opcode == START_FUNCTION {
        StartIsFull(s, step.req, step.reply);
      } else {
        assert Dispatch(s, step.req, step.reply).0.pages == s.pages;
      }
    }
  }

  // --- Runs ---------------------------------------------------------------------------------

  /** The service, and what the FIFO of its device holds. */
  datatype Setting = Setting(service: State, fifo: seq<U8>)

  /** The device as a step finds it. */
  function Facing(dev: Device, fifo: seq<U8>): Device {
    dev.(pending := fifo)
  }

  /** Between two logs lies a successful cmdReady or goIdle, which empties the FIFO. */
  predicate Empties(before: seq<Event>, after: seq<Event>) {
    && |before| < |after|
    && (after[|before|].CmdReady? || after[|before|].GoIdle?) && after[|before|].ok
  }

  /**
   * One step with a device in place. The FIFO is emptied by a start that executes
   * and by a successful cmdReady or goIdle; other starts may add to it, and all
   * else, resets and changes of locality among it, leaves it.
   */
  function Turn(tpm: Tpm, x: Setting, dev: Device, step: Step): (next: Setting)
    requires FullPages(x.service) && FullStep(step) && |dev.buffer| == CAPACITY
    ensures FullPages(next.service)
  {
    var s, facing := x.service, Facing(dev, x.fifo);
    var taken := Answered(s, tpm, facing, step);
    StepIsFull(s, taken);
    var next := Do(s, taken);
    Setting(
      next,
      if StartsAt(s, step) then FifoAfter(facing, s.pages[s.active])
      else if Empties(s.log, next.log) then []
      else x.fifo)
  }

  // What the host is answered in a step; only messages are answered.
  function Answer(tpm: Tpm, x: Setting, dev: Device, step: Step): Option<(TpmStatus, nat)>
    requires FullPages(x.service) && FullStep(step) && |dev.buffer| == CAPACITY
  {
    match Answered(x.service, tpm, Facing(dev, x.fifo), step)
    case Message(req, reply) =>
      var (_, status, payload) := Dispatch(x.service, req, reply);
      Some((status, payload))
    case _ => None
  }

  /** A run: step `i` finds the device as `devs[i]`, but for what its FIFO holds by then. */
  ghost predicate FullRun(x: Setting, devs: seq<Device>, steps: seq<Step>) {
    && FullPages(x.service)
    && |devs| == |steps|
    && (forall i | 0 <= i < |devs| :: |devs[i].buffer| == CAPACITY)
    && (forall i | 0 <= i < |steps| :: FullStep(steps[i]))
  }

  lemma FullTail(x: Setting, next: Setting, devs: seq<Device>, steps: seq<Step>)
    requires FullRun(x, devs, steps) && steps != [] && FullPages(next.service)
    ensures FullRun(next, devs[1..], steps[1..])
  {
    assert forall i | 0 <= i < |steps[1..]| :: steps[1..][i] == steps[i + 1] && devs[1..][i] == devs[i + 1];
  }

  /** The settings of a run, from the first to the one after the last step. */
  function Settings(tpm: Tpm, x: Setting, devs: seq<Device>, steps: seq<Step>): (r: seq<Setting>)
    requires FullRun(x, devs, steps)
    ensures |r| == |steps| + 1 && r[0] == x
    decreases |steps|
  {
    if steps == [] then [x]
    else
      var next := Turn(tpm, x, devs[0], steps[0]);
      FullTail(x, next, devs, steps);
      [x] + Settings(tpm, next, devs[1..], steps[1..])
  }

  /** What the host is answered in each step. */
  function Answers(tpm: Tpm, x: Setting, devs: seq<Device>, steps: seq<Step>): seq<Option<(TpmStatus, nat)>>
    requires FullRun(x, devs, steps)
    decreases |steps|
  {
    if steps == [] then []
    else
      var next := Turn(tpm, x, devs[0], steps[0]);
      FullTail(x, next, devs, steps);
      [Answer(tpm, x, devs[0], steps[0])] + Answers(tpm, next, devs[1..], steps[1..])
  }

  // The step is not a start that the device denies.
  ghost predicate Undenied(tpm: Tpm, x: Setting, dev: Device, step: Step)
    requires FullPages(x.service) && |dev.buffer| == CAPACITY
  {
    StartsAt(x.service, step) ==>
      Start(tpm, Facing(dev, x.fifo), x.service.pages[x.service.active]).0 != Denied
  }

  /** No start of the run is denied by its device. */
  ghost predicate NoneDenied(tpm: Tpm, x: Setting, devs: seq<Device>, steps: seq<Step>)
    requires FullRun(x, devs, steps)
    decreases |steps|
  {
    steps == [] ||
    (var next := Turn(tpm, x, devs[0], steps[0]);
     FullTail(x, next, devs, steps);
     Undenied(tpm, x, devs[0], steps[0]) && NoneDenied(tpm, next, devs[1..], steps[1..]))
  }

  predicate AllCrbs(devs: seq<Device>) {
    forall i | 0 <= i < |devs| :: devs[i].isCrb && Healthy(devs[i])
  }

  predicate AllFifos(devs: seq<Device>) {
    forall i | 0 <= i < |devs| :: !devs[i].isCrb
  }

  // A start that is not denied leaves an empty FIFO empty.
  lemma UndeniedLeavesNothing(tpm: Tpm, dev: Device, page: Page)
    requires Sized(dev, page) && dev.pending == [] && Start(tpm, dev, page).0 != Denied
    ensures FifoAfter(dev, page) == []
  {
  }

  lemma TurnsAgree(tpm: Tpm, x: Setting, crb: Device, fifo: Device, step: Step)
    requires FullPages(x.service) && FullStep(step) && |crb.buffer| == |fifo.buffer| == CAPACITY
    requires crb.isCrb && Healthy(crb) && !fifo.isCrb && x.fifo == [] && Undenied(tpm, x, fifo, step)
    ensures Turn(tpm, x, fifo, step) == Turn(tpm, x, crb, step) && Turn(tpm, x, fifo, step).fifo == []
    ensures Answer(tpm, x, fifo, step) == Answer(tpm, x, crb, step)
  {
    var s := x.service;
    if StartsAt(s, step) {
      EmptyFifoIsCrbOrDenied(tpm, Facing(crb, []), Facing(fifo, []), s.pages[s.active]);
      UndeniedLeavesNothing(tpm, Facing(fifo, []), s.pages[s.active]);
    }
    assert Answered(s, tpm, Facing(fifo, []), step) == Answered(s, tpm, Facing(crb, []), step);
  }

  /**
   * Whatever the burst counts and the faults of a FIFO that is empty at first: if
   * it denies no start, every state of the run and every answer is that of a
   * service on a healthy CRB.
   */
  lemma {:induction false} ServedRunsAgree(
        tpm: Tpm, x: Setting, crbs: seq<Device>, fifos: seq<Device>, steps: seq<Step>)
    requires FullRun(x, crbs, steps) && FullRun(x, fifos, steps) && x.fifo == []
    requires AllCrbs(crbs) && AllFifos(fifos) && NoneDenied(tpm, x, fifos, steps)
    ensures Settings(tpm, x, fifos, steps) == Settings(tpm, x, crbs, steps)
    ensures Answers(tpm, x, fifos, steps) == Answers(tpm, x, crbs, steps)
    decreases |steps|
  {
    if steps != [] {
      var next := Turn(tpm, x, fifos[0], steps[0]);
      TurnsAgree(tpm, x, crbs[0], fifos[0], steps[0]);
      FullTail(x, next, crbs, steps);
      FullTail(x, next, fifos, steps);
      ServedRunsAgree(tpm, next, crbs[1..], fifos[1..], steps[1..]);
    }
  }

  /** A TPM whose every response is as long as its own header says. */
  ghost predicate Truthful(tpm: Tpm) {
    forall command :: CompletePacket(tpm(command))
  }

  // A packet's header announces what the packet does.
  lemma HeaderIsEnough(bytes: seq<U8>)
    requires |bytes| >= TPM_HEADER_SIZE
    ensures LengthField(bytes[..TPM_HEADER_SIZE]) == LengthField(bytes)
  {
  }

  lemma HealthyServes(tpm: Tpm, fifo: Device, page: Page)
    requires Truthful(tpm) && Sized(fifo, page) && Healthy(fifo) && !fifo.isCrb && fifo.pending == []
    ensures Start(tpm, fifo, page).0 != Denied
  {
    if Command(page).Success? {
      var response := tpm(Command(page).value);
      assert CompletePacket(response) && response[..|response|] == response;
      HeaderIsEnough(response);
      FifoStart(tpm, fifo, page);
      ParsedIsWhole(response, page.responseSize);
    }
  }

  lemma HealthyTurn(tpm: Tpm, x: Setting, fifo: Device, step: Step)
    requires FullPages(x.service) && FullStep(step) && |fifo.buffer| == CAPACITY
    requires Truthful(tpm) && Healthy(fifo) && !fifo.isCrb && x.fifo == []
    ensures Undenied(tpm, x, fifo, step) && Turn(tpm, x, fifo, step).fifo == []
  {
    var s := x.service;
    if StartsAt(s, step) {
      HealthyServes(tpm, Facing(fifo, []), s.pages[s.active]);
      UndeniedLeavesNothing(tpm, Facing(fifo, []), s.pages[s.active]);
    }
  }

  lemma {:induction false} HealthyDeniesNone(tpm: Tpm, x: Setting, fifos: seq<Device>, steps: seq<Step>)
    requires FullRun(x, fifos, steps) && Truthful(tpm) && x.fifo == []
    requires AllFifos(fifos) && forall i | 0 <= i < |fifos| :: Healthy(fifos[i])
    ensures NoneDenied(tpm, x, fifos, steps)
    decreases |steps|
  {
    if steps != [] {
      var next := Turn(tpm, x, fifos[0], steps[0]);
      HealthyTurn(tpm, x, fifos[0], steps[0]);
      FullTail(x, next, fifos, steps);
      HealthyDeniesNone(tpm, next, fifos[1..], steps[1..]);
    }
  }

  /**
   * The interface does not show: over every run, whatever the host writes and
   * asks and whatever non-zero burst counts come, a service on healthy FIFOs has
   * the same states and gives the same answers as one on healthy CRBs.
   */
  lemma RunsAgree(tpm: Tpm, x: Setting, crbs: seq<Device>, fifos: seq<Device>, steps: seq<Step>)
    requires FullRun(x, crbs, steps) && FullRun(x, fifos, steps) && x.fifo == [] && Truthful(tpm)
    requires AllCrbs(crbs) && AllFifos(fifos) && forall i | 0 <= i < |fifos| :: Healthy(fifos[i])
    ensures Settings(tpm, x, fifos, steps) == Settings(tpm, x, crbs, steps)
    ensures Answers(tpm, x, fifos, steps) == Answers(tpm, x, crbs, steps)
  {
    HealthyDeniesNone(tpm, x, fifos, steps);
    ServedRunsAgree(tpm, x, crbs, fifos, steps);
  }

  // --- What stays in the FIFO -----------------------------------------------------------------

  /**
   * What a step means for the FIFO: it starts a command; it sends some of one
   * that is not executed; it is a successful cmdReady or goIdle.
   */
  datatype Deed = Deed(starts: bool, leaves: bool, empties: bool)

  function DeedOf(tpm: Tpm, x: Setting, dev: Device, step: Step): Deed
    requires FullPages(x.service) && FullStep(step) && |dev.buffer| == CAPACITY
  {
    var s := x.service;
    var starts := StartsAt(s, step);
    Deed(
      starts,
      starts && FifoAfter(Facing(dev, []), s.pages[s.active]) != [],
      !starts && Empties(s.log, Turn(tpm, x, dev, step).service.log))
  }

  function Deeds(tpm: Tpm, x: Setting, devs: seq<Device>, steps: seq<Step>): (r: seq<Deed>)
    requires FullRun(x, devs, steps)
    ensures |r| == |steps|
    decreases |steps|
  {
    if steps == [] then []
    else
      var next := Turn(tpm, x, devs[0], steps[0]);
      FullTail(x, next, devs, steps);
      [DeedOf(tpm, x, devs[0], steps[0])] + Deeds(tpm, next, devs[1..], steps[1..])
  }

  // What a deed makes of the FIFO contents.
  ghost predicate Accounts(deed: Deed, before: seq<U8>, after: seq<U8>) {
    && (deed.leaves ==> deed.starts)
    && (deed.starts && before == [] ==> (deed.leaves <==> after != []))
    && (deed.empties ==> after == [] && !deed.starts)
    && (!deed.starts && !deed.empties ==> after == before)
  }

  ghost predicate AllAccounted(deeds: seq<Deed>, xs: seq<Setting>)
    requires |xs| == |deeds| + 1
  {
    forall i | 0 <= i < |deeds| :: Accounts(deeds[i], xs[i].fifo, xs[i + 1].fifo)
  }

  lemma AccountPrepended(deed: Deed, x: Setting, deeds: seq<Deed>, xs: seq<Setting>)
    requires |xs| == |deeds| + 1 && AllAccounted(deeds, xs) && Accounts(deed, x.fifo, xs[0].fifo)
    ensures AllAccounted([deed] + deeds, [x] + xs)
  {
  }

  lemma {:induction false} RunIsAccounted(tpm: Tpm, x: Setting, devs: seq<Device>, steps: seq<Step>)
    requires FullRun(x, devs, steps)
    ensures AllAccounted(Deeds(tpm, x, devs, steps), Settings(tpm, x, devs, steps))
    decreases |steps|
  {
    if steps != [] {
      var next := Turn(tpm, x, devs[0], steps[0]);
      FullTail(x, next, devs, steps);
      RunIsAccounted(tpm, next, devs[1..], steps[1..]);
      AccountPrepended(
        DeedOf(tpm, x, devs[0], steps[0]), x,
        Deeds(tpm, next, devs[1..], steps[1..]), Settings(tpm, next, devs[1..], steps[1..]));
    }
  }

  /** Every start finds the FIFO empty. */
  ghost predicate EmptyAtStarts(deeds: seq<Deed>, xs: seq<Setting>)
    requires |xs| == |deeds| + 1
  {
    forall i | 0 <= i < |deeds| && deeds[i].starts :: xs[i].fifo == []
  }

  /** Between a start that leaves bytes and any later one lies a successful cmdReady or goIdle. */
  ghost predicate LeftoversCleared(deeds: seq<Deed>) {
    forall i, j | 0 <= i < j < |deeds| && deeds[i].leaves && deeds[j].starts :: exists k | i < k < j :: deeds[k].empties
  }

  // With every start finding the FIFO empty, what one leaves is still there unless emptied.
  lemma {:induction false} BytesStay(deeds: seq<Deed>, xs: seq<Setting>, i: nat, n: nat)
    requires |xs| == |deeds| + 1 && AllAccounted(deeds, xs) && EmptyAtStarts(deeds, xs)
    requires i < n <= |deeds| && deeds[i].starts && deeds[i].leaves
    requires forall k | i < k < n :: !deeds[k].empties
    ensures xs[n].fifo != []
    decreases n
  {
    assert Accounts(deeds[n - 1], xs[n - 1].fifo, xs[n].fifo);
    if n > i + 1 {
      BytesStay(deeds, xs, i, n - 1);
    }
  }

  // Bytes in the FIFO were left by a start since which nothing emptied it.
  lemma {:induction false} BytesSince(deeds: seq<Deed>, xs: seq<Setting>, n: nat) returns (i: nat)
    requires |xs| == |deeds| + 1 && AllAccounted(deeds, xs) && xs[0].fifo == []
    requires n <= |deeds| && xs[n].fifo != []
    requires forall j | 0 <= j < n && deeds[j].starts :: xs[j].fifo == []
    ensures i < n && deeds[i].leaves
    ensures forall k | i < k < n :: !deeds[k].empties
  {
    assert Accounts(deeds[n - 1], xs[n - 1].fifo, xs[n].fifo);
    if deeds[n - 1].starts {
      i := n - 1;
    } else {
      i := BytesSince(deeds, xs, n - 1);
    }
  }

  lemma {:induction false} ClearedIsEmpty(deeds: seq<Deed>, xs: seq<Setting>, n: nat)
    requires |xs| == |deeds| + 1 && AllAccounted(deeds, xs) && xs[0].fifo == []
    requires n <= |deeds| && LeftoversCleared(deeds)
    ensures forall j | 0 <= j < n && deeds[j].starts :: xs[j].fifo == []
    decreases n
  {
    if n > 0 {
      ClearedIsEmpty(deeds, xs, n - 1);
      if deeds[n - 1].starts && xs[n - 1].fifo != [] {
        var i := BytesSince(deeds, xs, n - 1);
      }
    }
  }

  lemma AccountIff(deeds: seq<Deed>, xs: seq<Setting>)
    requires |xs| == |deeds| + 1 && AllAccounted(deeds, xs) && xs[0].fifo == []
    ensures EmptyAtStarts(deeds, xs) <==> LeftoversCleared(deeds)
  {
    if EmptyAtStarts(deeds, xs) {
      forall i, j | 0 <= i < j < |deeds| && deeds[i].leaves && deeds[j].starts
        ensures exists k | i < k < j :: deeds[k].empties
      {
        assert Accounts(deeds[i], xs[i].fifo, xs[i + 1].fifo);
        if forall k | i < k < j :: !deeds[k].empties {
          BytesStay(deeds, xs, i, j);
        }
      }
    }
    if LeftoversCleared(deeds) {
      ClearedIsEmpty(deeds, xs, |deeds|);
    }
  }

  /**
   * Every start of a run finds the FIFO empty exactly when each one that leaves
   * bytes in it is followed by a successful cmdReady or goIdle before the next.
   */
  lemma EmptyAtStartsIff(tpm: Tpm, x: Setting, devs: seq<Device>, steps: seq<Step>)
    requires FullRun(x, devs, steps) && x.fifo == []
    ensures EmptyAtStarts(Deeds(tpm, x, devs, steps), Settings(tpm, x, devs, steps)) <==>
            LeftoversCleared(Deeds(tpm, x, devs, steps))
  {
    RunIsAccounted(tpm, x, devs, steps);
    AccountIff(Deeds(tpm, x, devs, steps), Settings(tpm, x, devs, steps));
  }

  // --- A start that runs another command --------------------------------------------------------

  lemma HostWrites(tpm: Tpm, x: Setting, dev: Device, l: nat, page: Page)
    requires FullPages(x.service) && l < NUM_LOCALITIES && |page.data| == CAPACITY == |dev.buffer|
    ensures Turn(tpm, x, dev, HostWrite(l, page)) ==
            Setting(x.service.(pages := x.service.pages[l := page]), x.fifo)
  {
  }

  // A denied start leaves the service as ready as it was, and bytes in the FIFO.
  lemma DeniedStart(tpm: Tpm, x: Setting, dev: Device, req: Request, reply: Reply)
    requires FullPages(x.service) && |dev.buffer| == CAPACITY && Starts(x.service, req)
    requires Start(tpm, Facing(dev, x.fifo), x.service.pages[x.service.active]).0 == Denied
    ensures var s, next := x.service, Turn(tpm, x, dev, Message(req, reply));
            && next.service.current == s.current && next.service.active == s.active
            && next.service.localities == s.localities && next.service.bypass == s.bypass
            && next.fifo == FifoAfter(Facing(dev, x.fifo), s.pages[s.active])
  {
    var s := x.service;
    var (status, data) := Start(tpm, Facing(dev, x.fifo), s.pages[s.active]);
    CommandStarts(s, Reply(status, data));
  }

  // What the host writes to have `n` bytes executed.
  function Asking(page: Page, n: U8): (r: Page)
    requires n >= TPM_HEADER_SIZE
    ensures |r.data| == CAPACITY && Command(r) == Success(PacketOf(n))
    ensures r.controlRequest == 0 && r.controlStart == START
  {
    PageOf(page.(controlRequest := 0, controlStart := START), n)
  }

  lemma ReadyStarts(s: State, req: Request)
    requires Valid(s) && s.current == Ready && s.active < NUM_LOCALITIES && s.localities[s.active] == Open
    requires s.pages[s.active].controlRequest == 0 && s.pages[s.active].controlStart == START
    requires req == Request(START_FUNCTION, QUALIFIER_COMMAND, s.active, 0)
    ensures Starts(s, req)
  {
  }

  /**
   * From any ready state: the host starts 22 bytes, of which ten go out before the
   * bursts end, and is denied. It then starts twelve, and the TPM executes the ten
   * and the twelve: a command that no page ever held.
   */
  lemma LeftoversReachTheTpm(tpm: Tpm, s: State, page: Page, first: Device, second: Device, reply: Reply)
    requires FullPages(s) && s.current == Ready && s.active < NUM_LOCALITIES && s.localities[s.active] == Open
    requires |first.buffer| == |second.buffer| == CAPACITY && !first.isCrb && first.bursts == [10, 0]
    requires !second.isCrb && second.bursts != [] && second.bursts[0] == 12 && !second.refuses && !second.hangs
    ensures var l, req := s.active, Request(START_FUNCTION, QUALIFIER_COMMAND, s.active, 0);
            var asked := Turn(tpm, Setting(s, []), first, HostWrite(l, Asking(page, 22)));
            var denied := Turn(tpm, asked, first, Message(req, reply));
            var again := Turn(tpm, denied, second, HostWrite(l, Asking(page, 12)));
            var facing := Facing(second, again.fifo);
            && Starts(asked.service, req) && Starts(again.service, req)
            && Command(again.service.pages[l]) == Success(PacketOf(12)) && Executes(facing, PacketOf(12))
            && Received(facing, PacketOf(12)) == PacketOf(22)[..10] + PacketOf(12)
  {
    var l, req := s.active, Request(START_FUNCTION, QUALIFIER_COMMAND, s.active, 0);
    var x := Setting(s, []);
    var ready := page.(controlRequest := 0, controlStart := START);
    HostWrites(tpm, x, first, l, Asking(page, 22));
    var asked := Turn(tpm, x, first, HostWrite(l, Asking(page, 22)));
    ReadyStarts(asked.service, req);
    LeftoversAreExecuted(
      tpm, ready, Facing(first, []), Facing(second, FifoAfter(Facing(first, []), PageOf(ready, 22))));
    DeniedStart(tpm, asked, first, req, reply);
    var denied := Turn(tpm, asked, first, Message(req, reply));
    HostWrites(tpm, denied, second, l, Asking(page, 12));
    ReadyStarts(Turn(tpm, denied, second, HostWrite(l, Asking(page, 12))).service, req);
  }
}
