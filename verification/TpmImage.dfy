/**
 * What the host reads in the control pages. While the host leaves the locality
 * state registers alone they tell the active locality exactly, and after every
 * start request the active page is back in its known-good form.
 */
module TpmImage {
  import opened Outcomes
  import opened TpmSpec
  import opened Words

  /** The locality state register of the active locality: its number, valid, assigned. */
  function LocalityImage(l: nat): bv32
    requires l < NUM_LOCALITIES
  {
    ((l as bv32) << 2) | 0x82
  }

  /** The active page shows its locality, every other page shows none. */
  ghost predicate LocalitiesShown(s: State) {
    && Valid(s)
    && (forall l | 0 <= l < NUM_LOCALITIES ::
          s.pages[l].localityState == if l == s.active then LocalityImage(l) else 0)
  }

  /** A page with nothing requested, the service's identifier, and its own buffer's address and size. */
  ghost predicate QuietImage(s: State, l: nat)
    requires Valid(s) && l < NUM_LOCALITIES
  {
    var page := s.pages[l];
    && page.controlRequest == 0 && page.controlStart == 0 && page.controlCancel == 0 && page.localityControl == 0
    && page.controlExtension == 0 && page.interruptEnable == 0 && page.interruptStatus == 0
    && page.interfaceId == s.interfaceId
    && page.commandAddressHigh * 0x1_0000_0000 + page.commandAddressLow == s.base + l * 0x1000 + 0x80
    && page.responseAddress == s.base + l * 0x1000 + 0x80
    && page.commandSize == 0xF80 && page.responseSize == 0xF80
  }

  /** Quiet, granted, and the idle bit tells the state. */
  ghost predicate CleanImage(s: State, l: nat)
    requires Valid(s) && l < NUM_LOCALITIES
  {
    var page := s.pages[l];
    && QuietImage(s, l)
    && (page.controlStatus & 2 != 0 <==> s.current == Idle)
    && page.localityStatus & 1 != 0
  }

  // The bits the service sets are the image, whether they were set before or not.
  lemma BitsAreImage(l: nat)
    requires l < NUM_LOCALITIES
    ensures ActiveLocalityBits(l) | REG_VALID_STATUS | LOCALITY_ASSIGNED == LocalityImage(l)
  {
    if l == 0 {
      assert LocalityImage(0) == 0x82;
    } else if l == 1 {
      assert LocalityImage(1) == 0x86;
    } else if l == 2 {
      assert LocalityImage(2) == 0x8A;
    } else if l == 3 {
      assert LocalityImage(3) == 0x8E;
    } else {
      assert LocalityImage(4) == 0x92;
    }
  }

  lemma OrKeeps(x: bv32, bits: bv32)
    requires x == 0 || x == bits | REG_VALID_STATUS | LOCALITY_ASSIGNED
    ensures x | bits | REG_VALID_STATUS | LOCALITY_ASSIGNED == bits | REG_VALID_STATUS | LOCALITY_ASSIGNED
  {
  }

  // Before cleaning, the active page may still show nothing.
  ghost predicate AlmostShown(s: State) {
    && Valid(s)
    && (forall l | 0 <= l < NUM_LOCALITIES && l != s.active :: s.pages[l].localityState == 0)
    && (s.active < NUM_LOCALITIES ==> s.pages[s.active].localityState in {0, LocalityImage(s.active)})
  }

  lemma CleanShows(s: State)
    requires AlmostShown(s)
    ensures LocalitiesShown(Clean(s))
  {
    if s.active != NO_ACTIVE_LOCALITY {
      BitsAreImage(s.active);
      OrKeeps(s.pages[s.active].localityState, ActiveLocalityBits(s.active));
    }
  }

  lemma CleanIsClean(s: State)
    requires Valid(s)
    ensures Clean(s).active < NUM_LOCALITIES ==> CleanImage(Clean(s), Clean(s).active)
  {
    if s.active != NO_ACTIVE_LOCALITY {
      var status := s.pages[s.active].localityStatus;
      assert (status | GRANTED) & GRANTED != 0;
      assert TPM_IDLE & TPM_IDLE != 0 && 0 & TPM_IDLE == 0;
    }
  }

  lemma CommandAlmostShown(s: State, reply: Reply)
    requires LocalitiesShown(s) && s.active < NUM_LOCALITIES
    ensures AlmostShown(HandleCommand(s, reply).0)
  {
    var page := s.pages[s.active];
    var call := Decide(page.controlRequest, page.controlStart, s.current, s.bypass);
    assert HandleCommand(s, reply).0 in {s, Called(s, call, reply)};
  }

  lemma LocalityAlmostShown(s: State, l: nat, reply: Reply)
    requires LocalitiesShown(s) && l < NUM_LOCALITIES
    ensures AlmostShown(HandleLocalityRequest(s, l, reply).0)
  {
    var next := HandleLocalityRequest(s, l, reply).0;
    var cleared := s.pages[l := InitPage(s.base, l, s.interfaceId)];
    assert (next.pages == s.pages && next.active == s.active) ||
           (next.pages == cleared && next.active in {l, NO_ACTIVE_LOCALITY});
    assert cleared[l].localityState == 0;
  }

  /** After every start request the active page is clean, whatever the answer was. */
  lemma StartCleans(s: State, req: Request, reply: Reply)
    requires Valid(s)
    ensures var next := StartHandler(s, req, reply).0;
            next.active < NUM_LOCALITIES ==> CleanImage(next, next.active)
  {
    var qualifier, l := req.functionId % 0x1_0000, req.locality % 0x100;
    if l < NUM_LOCALITIES && s.localities[l] == Open && qualifier == QUALIFIER_COMMAND && l == s.active {
      CleanIsClean(HandleCommand(s, reply).0);
    } else if l < NUM_LOCALITIES && s.localities[l] == Open && qualifier == QUALIFIER_LOCALITY {
      CleanIsClean(HandleLocalityRequest(s, l, reply).0);
    } else {
      CleanIsClean(s);
    }
  }

  lemma StartShows(s: State, req: Request, reply: Reply)
    requires LocalitiesShown(s)
    ensures LocalitiesShown(StartHandler(s, req, reply).0)
  {
    var qualifier, l := req.functionId % 0x1_0000, req.locality % 0x100;
    if l < NUM_LOCALITIES && s.localities[l] == Open && qualifier == QUALIFIER_COMMAND && l == s.active {
      CommandAlmostShown(s, reply);
      CleanShows(HandleCommand(s, reply).0);
    } else if l < NUM_LOCALITIES && s.localities[l] == Open && qualifier == QUALIFIER_LOCALITY {
      LocalityAlmostShown(s, l, reply);
      CleanShows(HandleLocalityRequest(s, l, reply).0);
    } else {
      CleanShows(s);
    }
  }

  /** The host writes anything but a locality state register; a shutdown comes when no locality is active. */
  predicate Respectful(s: State, step: Step)
    requires |s.pages| == NUM_LOCALITIES
  {
    match step
    case HostWrite(l, page) => l < NUM_LOCALITIES ==> page.localityState == s.pages[l].localityState
    case Deinit => s.active == NO_ACTIVE_LOCALITY
    case _ => true
  }

  lemma InitShows(s: State, bypass: bool)
    requires Valid(s)
    ensures LocalitiesShown(Initialise(s, bypass))
  {
  }

  lemma InterfaceId()
    ensures DefaultInterfaceId() == 0x4111
  {
  }

  /**
   * After initialisation every page is quiet, idle, ungranted and empty, and its
   * identifier announces a CRB interface, version 1, with five localities.
   */
  lemma InitImage(s: State, bypass: bool, l: nat)
    requires Valid(s) && l < NUM_LOCALITIES
    ensures var next := Initialise(s, bypass);
            && QuietImage(next, l)
            && next.pages[l].controlStatus == 2 && next.pages[l].localityStatus == 0
            && next.pages[l].data == Zeros(0xF80)
            && next.interfaceId == 0x4111
  {
    InterfaceId();
  }

  lemma DispatchShows(s: State, req: Request, reply: Reply)
    requires LocalitiesShown(s)
    ensures LocalitiesShown(Dispatch(s, req, reply).0)
  {
    if req.opcode == START_FUNCTION {
      StartShows(s, req, reply);
    } else {
      assert Dispatch(s, req, reply).0.pages == s.pages && Dispatch(s, req, reply).0.active == s.active;
    }
  }

  lemma DoShows(s: State, step: Step)
    requires LocalitiesShown(s) && Respectful(s, step)
    ensures LocalitiesShown(Do(s, step))
  {
    match step
    case HostWrite(_, _) =>
    case Message(req, reply) => DispatchShows(s, req, reply);
    case Init(bypass) => InitShows(s, bypass);
    case Deinit =>
  }

  ghost predicate RespectfulRun(s: State, steps: seq<Step>)
    requires Valid(s)
    decreases |steps|
  {
    steps == [] || (Respectful(s, steps[0]) && RespectfulRun(Do(s, steps[0]), steps[1..]))
  }

  lemma {:induction false} RunShows(s: State, steps: seq<Step>)
    requires LocalitiesShown(s) && RespectfulRun(s, steps)
    ensures LocalitiesShown(Run(s, steps))
    decreases |steps|
  {
    if steps != [] {
      DoShows(s, steps[0]);
      RunShows(Do(s, steps[0]), steps[1..]);
    }
  }

  /** From any initialisation on, over every run in which the host respects those registers. */
  lemma EveryRunShows(s: State, bypass: bool, steps: seq<Step>)
    requires Valid(s) && RespectfulRun(Do(s, Init(bypass)), steps)
    ensures LocalitiesShown(Run(s, [Init(bypass)] + steps))
  {
    InitShows(s, bypass);
    RunShows(Do(s, Init(bypass)), steps);
    assert ([Init(bypass)] + steps)[1..] == steps;
  }

  lemma OrIsNotZero(bits: bv32)
    ensures bits | REG_VALID_STATUS | LOCALITY_ASSIGNED != 0
  {
  }

  lemma ImageIsNotZero(l: nat)
    requires l < NUM_LOCALITIES
    ensures LocalityImage(l) != 0
  {
    BitsAreImage(l);
    OrIsNotZero(ActiveLocalityBits(l));
  }

  /** Shutting down keeps the pages truthful exactly when no locality was active. */
  lemma DeinitShowsIff(s: State)
    requires LocalitiesShown(s)
    ensures LocalitiesShown(Deinitialise(s)) <==> s.active == NO_ACTIVE_LOCALITY
  {
    if s.active < NUM_LOCALITIES {
      ImageIsNotZero(s.active);
      assert Deinitialise(s).pages[s.active].localityState == LocalityImage(s.active);
    }
  }

  lemma CalledKeepsRegisters(s: State, call: Call, reply: Reply)
    requires Valid(s) && s.active < NUM_LOCALITIES
    ensures var before, after := s.pages[s.active], Called(s, call, reply).pages[s.active];
            after.localityState == before.localityState && after.localityStatus == before.localityStatus
  {
    var pages := Called(s, call, reply).pages;
    match call
    case NoCall =>
    case StartCall =>
      assert pages == s.pages || pages == s.pages[s.active := s.pages[s.active].(data := reply.data)];
    case _ =>
      assert pages == s.pages || pages == s.pages[s.active := s.pages[s.active].(data := Zeros(CRB_DATA_BUFFER_SIZE))];
  }

  lemma CommandKeepsRegisters(s: State, reply: Reply)
    requires Valid(s) && s.active < NUM_LOCALITIES
    ensures var next := HandleCommand(s, reply).0;
            && next.active == s.active
            && next.pages[s.active].localityState == s.pages[s.active].localityState
            && next.pages[s.active].localityStatus == s.pages[s.active].localityStatus
  {
    var page := s.pages[s.active];
    var call := Decide(page.controlRequest, page.controlStart, s.current, s.bypass);
    CalledKeepsRegisters(s, call, reply);
    assert HandleCommand(s, reply).0 in {s, Called(s, call, reply)};
  }

  lemma OrAssociates(x: bv32, bits: bv32)
    ensures x | bits | REG_VALID_STATUS | LOCALITY_ASSIGNED == x | (bits | REG_VALID_STATUS | LOCALITY_ASSIGNED)
  {
  }

  lemma MarksAdd(register: bv32, l: nat)
    requires l < NUM_LOCALITIES
    ensures Marked(register, l) == register | LocalityImage(l)
  {
    BitsAreImage(l);
    OrAssociates(register, ActiveLocalityBits(l));
  }

  lemma CleanMarks(s: State)
    requires Valid(s) && s.active < NUM_LOCALITIES
    ensures var before, after := s.pages[s.active], Clean(s).pages[s.active];
            && after.localityState == before.localityState | LocalityImage(s.active)
            && after.localityStatus == before.localityStatus | 1
  {
    MarksAdd(s.pages[s.active].localityState, s.active);
  }

  lemma CommandCleans(s: State, req: Request, reply: Reply)
    requires Valid(s) && req.opcode == START_FUNCTION && req.functionId % 0x1_0000 == 0
    requires req.locality % 0x100 == s.active < NUM_LOCALITIES && s.localities[s.active] == Open
    ensures Dispatch(s, req, reply).0 == Clean(HandleCommand(s, reply).0)
  {
  }

  /**
   * A command request adds the locality, valid, assigned and granted bits to what
   * the locality registers of the active page held, and takes none away.
   */
  lemma RegistersAreMarked(s: State, req: Request, reply: Reply)
    requires Valid(s) && req.opcode == START_FUNCTION && req.functionId % 0x1_0000 == 0
    requires req.locality % 0x100 == s.active < NUM_LOCALITIES && s.localities[s.active] == Open
    ensures var before, after := s.pages[s.active], Dispatch(s, req, reply).0.pages[s.active];
            && after.localityState == before.localityState | LocalityImage(s.active)
            && after.localityStatus == before.localityStatus | 1
  {
    CommandCleans(s, req, reply);
    CommandKeepsRegisters(s, reply);
    CleanMarks(HandleCommand(s, reply).0);
  }
}
