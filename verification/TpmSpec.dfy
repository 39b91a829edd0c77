/**
 * The TPM service on values: its control pages, its state machine and the effect
 * of each request. The device behind the service answers at most one call per
 * request, and every such call is logged.
 */
module TpmSpec {
  import opened Outcomes
  import opened Words

  const NUM_LOCALITIES: nat := 5
  const NO_ACTIVE_LOCALITY: nat := 5
  const PAGE_SIZE: nat := 0x1000
  const DATA_OFFSET: nat := 0x80
  const CRB_DATA_BUFFER_SIZE: nat := 0xF80

  const COMMAND_READY: bv32 := 1
  const GO_IDLE: bv32 := 2
  const START: bv32 := 1
  const TPM_IDLE: bv32 := 2
  const REQUEST_ACCESS: bv32 := 1
  const RELINQUISH: bv32 := 2
  const GRANTED: bv32 := 1
  const REG_VALID_STATUS: bv32 := 0x80
  const LOCALITY_ASSIGNED: bv32 := 2
  const ACTIVE_LOCALITY_0: bv32 := 0x00
  const ACTIVE_LOCALITY_1: bv32 := 0x04
  const ACTIVE_LOCALITY_2: bv32 := 0x08
  const ACTIVE_LOCALITY_3: bv32 := 0x0C
  const ACTIVE_LOCALITY_4: bv32 := 0x10

  datatype TpmState = Idle | Ready | Complete

  datatype LocalityState = Closed | Open

  datatype TpmStatus =
    | TpmOk
    | OkResultsReturned
    | NoFunc
    | NotSup
    | InvArg
    | InvCrbCtrlData
    | Already
    | TpmDenied
    | NoMem

  datatype Page = Page(
    localityState: bv32,
    localityControl: bv32,
    localityStatus: bv32,
    interfaceId: bv32,
    controlExtension: bv64,
    controlRequest: bv32,
    controlStatus: bv32,
    controlCancel: bv32,
    controlStart: bv32,
    interruptEnable: bv32,
    interruptStatus: bv32,
    commandSize: U32,
    commandAddressLow: U32,
    commandAddressHigh: U32,
    responseSize: U32,
    responseAddress: U64,
    data: seq<U8>)

  /** Calls into the device library, with the locality and whether they succeeded; and what resets them. */
  datatype Event =
    | Initialised(bypass: bool)
    | Deinitialised
    | Opened(locality: nat)
    | ClosedOff(locality: nat)
    | LocalityRequest(locality: nat, ok: bool)
    | LocalityRelinquish(locality: nat, ok: bool)
    | CmdReady(locality: nat, ok: bool)
    | GoIdle(locality: nat, ok: bool)
    | Execute(locality: nat, ok: bool)

  datatype State = State(
    current: TpmState,
    active: nat,
    interfaceId: bv32,
    localities: seq<LocalityState>,
    registered: bool,
    pages: seq<Page>,
    base: nat,
    bypass: bool,
    log: seq<Event>)

  /** What the device library answers if this request calls it. */
  datatype Reply = Reply(status: ErrorCode, data: seq<U8>)

  datatype Request = Request(opcode: U64, functionId: U64, locality: U64, sourceId: U16)

  ghost predicate Valid(s: State) {
    && s.active <= NO_ACTIVE_LOCALITY
    && |s.localities| == NUM_LOCALITIES
    && |s.pages| == NUM_LOCALITIES
    && s.base + NUM_LOCALITIES * PAGE_SIZE <= 0x1_0000_0000_0000_0000
  }

  // --- Interface identifier ---------------------------------------------------------

  function SetInterfaceType(id: bv32, val: bv32): bv32 {
    (id & 0xFFFF_FFF0) | (val & 0xF)
  }

  function SetInterfaceVersion(id: bv32, val: bv32): bv32 {
    (id & 0xFFFF_FF0F) | ((val & 0xF) << 4)
  }

  function SetCapLocality(id: bv32, val: bv32): bv32 {
    (id & 0xFFFF_FEFF) | ((val & 1) << 8)
  }

  function SetCapCrb(id: bv32, val: bv32): bv32 {
    (id & 0xFFFF_BFFF) | ((val & 1) << 14)
  }

  function DefaultInterfaceId(): bv32 {
    SetCapCrb(SetCapLocality(SetInterfaceVersion(SetInterfaceType(0, 1), 1), 1), 1)
  }

  // --- Pages ------------------------------------------------------------------------

  /** The address of the data buffer of locality `l`. */
  function BufferAddress(base: nat, l: nat): (a: U64)
    requires l < NUM_LOCALITIES && base + NUM_LOCALITIES * PAGE_SIZE <= 0x1_0000_0000_0000_0000
  {
    base + l * PAGE_SIZE + DATA_OFFSET
  }

  function InitPage(base: nat, l: nat, interfaceId: bv32): Page
    requires l < NUM_LOCALITIES && base + NUM_LOCALITIES * PAGE_SIZE <= 0x1_0000_0000_0000_0000
  {
    var addr := BufferAddress(base, l);
    Page(0, 0, 0, interfaceId, 0, 0, TPM_IDLE, 0, 0, 0, 0,
         CRB_DATA_BUFFER_SIZE, addr % 0x1_0000_0000, addr / 0x1_0000_0000,
         CRB_DATA_BUFFER_SIZE, addr, Zeros(CRB_DATA_BUFFER_SIZE))
  }

  function ActiveLocalityBits(l: nat): bv32 {
    match l
    case 0 => ACTIVE_LOCALITY_0
    case 1 => ACTIVE_LOCALITY_1
    case 2 => ACTIVE_LOCALITY_2
    case 3 => ACTIVE_LOCALITY_3
    case 4 => ACTIVE_LOCALITY_4
    case _ => 0
  }

  // The locality state register once the service has marked it.
  function Marked(localityState: bv32, l: nat): bv32 {
    localityState | ActiveLocalityBits(l) | REG_VALID_STATUS | LOCALITY_ASSIGNED
  }

  function CleanPage(page: Page, base: nat, l: nat, interfaceId: bv32, current: TpmState): Page
    requires l < NUM_LOCALITIES && base + NUM_LOCALITIES * PAGE_SIZE <= 0x1_0000_0000_0000_0000
  {
    var addr := BufferAddress(base, l);
    Page(Marked(page.localityState, l),
         0, page.localityStatus | GRANTED, interfaceId, 0, 0,
         if current == Idle then TPM_IDLE else 0,
         0, 0, 0, 0,
         CRB_DATA_BUFFER_SIZE, addr % 0x1_0000_0000, addr / 0x1_0000_0000,
         CRB_DATA_BUFFER_SIZE, addr, page.data)
  }

  function Clean(s: State): (next: State)
    requires Valid(s)
    ensures Valid(next) && next == s.(pages := next.pages)
  {
    if s.active == NO_ACTIVE_LOCALITY then s
    else
      s.(pages := s.pages[s.active := CleanPage(s.pages[s.active], s.base, s.active, s.interfaceId, s.current)])
  }

  // --- Commands ---------------------------------------------------------------------

  function ConvertError(status: ErrorCode): TpmStatus {
    match status
    case Ok => TpmOk
    case Denied => TpmDenied
    case NoMemory => NoMem
    case _ => TpmDenied
  }

  /** The device call a command request leads to. */
  datatype Call = NoCall | CmdReadyCall | GoIdleCall | StartCall

  function Decide(request: bv32, start: bv32, current: TpmState, bypass: bool): Call {
    var goIdle := request & GO_IDLE != 0;
    var cmdReady := request & COMMAND_READY != 0;
    var go := start & START != 0;
    match current
    case Idle => if cmdReady then CmdReadyCall else NoCall
    case Ready =>
      if goIdle then GoIdleCall else if cmdReady then CmdReadyCall else if go then StartCall else NoCall
    case Complete =>
      if goIdle then GoIdleCall
      else if cmdReady then if bypass then CmdReadyCall else NoCall
      else if go && bypass then StartCall
      else NoCall
  }

  function WithData(s: State, data: seq<U8>): (next: State)
    requires Valid(s) && s.active < NUM_LOCALITIES
    ensures Valid(next) && next.log == s.log && next.current == s.current && next.active == s.active
    ensures next.localities == s.localities && next.bypass == s.bypass
    ensures forall l | 0 <= l < NUM_LOCALITIES :: next.pages[l].localityState == s.pages[l].localityState
  {
    s.(pages := s.pages[s.active := s.pages[s.active].(data := data)])
  }

  // The state after the device has answered `reply` to the call.
  function Called(s: State, call: Call, reply: Reply): (next: State)
    requires Valid(s) && s.active < NUM_LOCALITIES
    ensures Valid(next) && next.active == s.active
    ensures forall l | 0 <= l < NUM_LOCALITIES :: next.pages[l].localityState == s.pages[l].localityState
  {
    var ok := reply.status == Ok;
    match call
    case NoCall => s
    case CmdReadyCall =>
      var next := s.(log := s.log + [CmdReady(s.active, ok)], current := if ok then Ready else s.current);
      if ok && s.current == Complete then WithData(next, Zeros(CRB_DATA_BUFFER_SIZE)) else next
    case GoIdleCall =>
      var next := s.(log := s.log + [GoIdle(s.active, ok)], current := if ok then Idle else s.current);
      if ok && s.current == Complete then WithData(next, Zeros(CRB_DATA_BUFFER_SIZE)) else next
    case StartCall =>
      // A start that fails leaves the page as it was.
      var next := s.(log := s.log + [Execute(s.active, ok)], current := if ok then Complete else s.current);
      if ok then WithData(next, reply.data) else next
  }

  function HandleCommand(s: State, reply: Reply): (r: (State, TpmStatus))
    requires Valid(s) && s.active < NUM_LOCALITIES
    ensures Valid(r.0)
  {
    var page := s.pages[s.active];
    if page.controlRequest == 0 && page.controlStart == 0 then (s, InvCrbCtrlData)
    else
      var call := Decide(page.controlRequest, page.controlStart, s.current, s.bypass);
      (Called(s, call, reply), if call == NoCall then TpmDenied else ConvertError(reply.status))
  }

  // --- Localities -------------------------------------------------------------------

  function HandleLocalityRequest(s: State, l: nat, reply: Reply): (r: (State, TpmStatus))
    requires Valid(s) && l < NUM_LOCALITIES
    ensures Valid(r.0)
  {
    var control := s.pages[l].localityControl;
    var ok := reply.status == Ok;
    var answer := ConvertError(reply.status);
    var cleared := s.(pages := s.pages[l := InitPage(s.base, l, s.interfaceId)]);
    if control & RELINQUISH != 0 then
      if l != s.active then (s, TpmDenied)
      else
        var log := s.log + [LocalityRelinquish(l, ok)];
        (if ok then cleared.(log := log, active := NO_ACTIVE_LOCALITY) else s.(log := log), answer)
    else if control & REQUEST_ACCESS != 0 then
      if s.active != NO_ACTIVE_LOCALITY && s.active != l then (s, TpmDenied)
      else
        var log := s.log + [LocalityRequest(l, ok)];
        (if ok then cleared.(log := log, active := l) else s.(log := log), answer)
    else (s, InvCrbCtrlData)
  }

  const QUALIFIER_COMMAND: nat := 0
  const QUALIFIER_LOCALITY: nat := 1

  /** The function id is truncated to 16 bits, the locality to 8. */
  function StartHandler(s: State, req: Request, reply: Reply): (r: (State, TpmStatus))
    requires Valid(s)
    ensures Valid(r.0)
  {
    var qualifier := req.functionId % 0x1_0000;
    var l := req.locality % 0x100;
    var (next, answer) :=
      if l >= NUM_LOCALITIES then (s, InvArg)
      else if s.localities[l] == Closed then (s, TpmDenied)
      else if qualifier == QUALIFIER_COMMAND then
        if l == s.active then HandleCommand(s, reply) else (s, InvArg)
      else if qualifier == QUALIFIER_LOCALITY then HandleLocalityRequest(s, l, reply)
      else (s, InvArg);
    (Clean(next), answer)
  }

  const LOCALITY_OPEN: nat := 0
  const LOCALITY_CLOSE: nat := 1

  function ManageLocality(s: State, req: Request): (r: (State, TpmStatus))
    requires Valid(s)
    ensures Valid(r.0)
  {
    var operation := req.functionId % 0x1_0000;
    var l := req.locality % 0x100;
    if l >= NUM_LOCALITIES then (s, InvArg)
    else if operation == LOCALITY_OPEN then
      (s.(localities := s.localities[l := Open], log := s.log + [Opened(l)]), TpmOk)
    else if operation == LOCALITY_CLOSE then
      (s.(localities := s.localities[l := Closed], log := s.log + [ClosedOff(l)]), TpmOk)
    else (s, InvArg)
  }

  // --- The service ------------------------------------------------------------------

  const GET_INTERFACE_VERSION: U64 := 0x0f00_0001
  const GET_FEATURE_INFO: U64 := 0x0f00_0101
  const START_FUNCTION: U64 := 0x0f00_0201
  const REGISTER_FOR_NOTIFICATION: U64 := 0x0f00_0301
  const UNREGISTER_FROM_NOTIFICATION: U64 := 0x0f00_0401
  const FINISH_NOTIFIED: U64 := 0x0f00_0501
  const MANAGE_LOCALITY: U64 := 0x1f00_0001

  const INTERFACE_VERSION: U64 := 0x1_0000
  const NOTIFICATIONS_SUPPORTED: U64 := 1

  /** One direct request: new state, status and payload. */
  function Dispatch(s: State, req: Request, reply: Reply): (r: (State, TpmStatus, U64))
    requires Valid(s)
    ensures Valid(r.0)
  {
    if req.opcode == GET_INTERFACE_VERSION then (s, OkResultsReturned, INTERFACE_VERSION)
    else if req.opcode == GET_FEATURE_INFO then
      if req.functionId == REGISTER_FOR_NOTIFICATION then (s, OkResultsReturned, NOTIFICATIONS_SUPPORTED)
      else (s, NotSup, 0)
    else if req.opcode == START_FUNCTION then
      var (next, answer) := StartHandler(s, req, reply); (next, answer, 0)
    else if req.opcode == REGISTER_FOR_NOTIFICATION then
      if s.registered then (s, Already, 0) else (s.(registered := true), TpmOk, 0)
    else if req.opcode == UNREGISTER_FROM_NOTIFICATION then
      if s.registered then (s.(registered := false), TpmOk, 0) else (s, TpmDenied, 0)
    else if req.opcode == FINISH_NOTIFIED then (s, if s.registered then TpmOk else TpmDenied, 0)
    else if req.opcode == MANAGE_LOCALITY then
      if req.sourceId / 0x100 != 0xFF then (s, TpmDenied, 0)
      else var (next, answer) := ManageLocality(s, req); (next, answer, 0)
    else (s, NoFunc, 0)
  }

  function Reset(s: State): State {
    s.(current := Idle, active := NO_ACTIVE_LOCALITY, registered := false)
  }

  function InitPages(base: nat, interfaceId: bv32): (r: seq<Page>)
    requires base + NUM_LOCALITIES * PAGE_SIZE <= 0x1_0000_0000_0000_0000
    ensures |r| == NUM_LOCALITIES
    ensures forall l | 0 <= l < NUM_LOCALITIES :: r[l] == InitPage(base, l, interfaceId)
  {
    seq(NUM_LOCALITIES, l requires 0 <= l < NUM_LOCALITIES => InitPage(base, l, interfaceId))
  }

  /** `bypass` is what the device's interface register says on initialisation. */
  function Initialise(s: State, bypass: bool): (next: State)
    requires Valid(s)
    ensures Valid(next)
  {
    Reset(s).(
      interfaceId := DefaultInterfaceId(),
      pages := InitPages(s.base, DefaultInterfaceId()),
      localities := [Open, Open, Closed, Closed, Closed],
      bypass := bypass,
      log := s.log + [Initialised(bypass)])
  }

  function Deinitialise(s: State): (next: State)
    requires Valid(s)
    ensures Valid(next)
  {
    Reset(s).(localities := [Closed, Closed, Closed, Closed, Closed], log := s.log + [Deinitialised])
  }

  /** One step of a run: the host writes a control page, or the service acts. */
  datatype Step =
    | HostWrite(locality: nat, page: Page)
    | Message(req: Request, reply: Reply)
    | Init(bypass: bool)
    | Deinit

  function Do(s: State, step: Step): (next: State)
    requires Valid(s)
    ensures Valid(next)
  {
    match step
    case HostWrite(l, page) => if l < NUM_LOCALITIES then s.(pages := s.pages[l := page]) else s
    case Message(req, reply) => Dispatch(s, req, reply).0
    case Init(bypass) => Initialise(s, bypass)
    case Deinit => Deinitialise(s)
  }

  function Run(s: State, steps: seq<Step>): (last: State)
    requires Valid(s)
    ensures Valid(last)
    decreases |steps|
  {
    if steps == [] then s else Run(Do(s, steps[0]), steps[1..])
  }

  /** A service just constructed over the memory `pages`. */
  function New(pages: seq<Page>, base: nat): (s: State)
    requires |pages| == NUM_LOCALITIES && base + NUM_LOCALITIES * PAGE_SIZE <= 0x1_0000_0000_0000_0000
    ensures Valid(s)
  {
    State(Idle, NO_ACTIVE_LOCALITY, 0, [Closed, Closed, Closed, Closed, Closed], false, pages, base, false, [])
  }
}
