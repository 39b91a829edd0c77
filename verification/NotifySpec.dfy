/**
 * The Notify service on values: its tables, its lookups and the effect of each
 * message, branch by branch, for every request. A bitmap word appears here as
 * the set of its positions.
 */
module NotifySpec {
  import opened Outcomes

  const MAX_SERVICES: nat := 16
  const MAX_MAPPINGS: nat := 64
  const MAX_TUPLES: nat := 7
  const ID_LIMIT: nat := 64

  // A UUID, as the 128-bit little-endian number the service decodes it from.
  type Uuid = U128

  datatype NotifyType = Global | PerVcpu

  datatype Message = Add | Remove | Setup | Destroy | Assign | Unassign

  datatype Tuple = Tuple(cookie: U32, id: U16, ntype: NotifyType)

  datatype Request = Request(
    srcId: U16,
    senderUuid: Uuid,
    receiverUuid: Uuid,
    msgInfo: U64,
    count: U8,
    notifications: seq<Tuple>)

  datatype Mapping = Mapping(cookie: U32, id: U16, ntype: NotifyType, srcId: U16, inUse: bool)

  datatype Entry = Entry(serviceUuid: Uuid, inUse: bool, mappings: seq<Mapping>)

  datatype State = State(entries: seq<Entry>, bits: set<nat>)

  const FREE: Mapping := Mapping(0, 0, Global, 0, false)

  function FreeSlots(): (r: seq<Mapping>)
    ensures |r| == MAX_MAPPINGS && forall k | 0 <= k < MAX_MAPPINGS :: r[k] == FREE
  {
    seq(MAX_MAPPINGS, k => FREE)
  }

  function Initial(): (s: State)
    ensures |s.entries| == MAX_SERVICES && s.bits == {}
    ensures forall e | 0 <= e < MAX_SERVICES :: s.entries[e] == Entry(0, false, FreeSlots())
  {
    State(seq(MAX_SERVICES, e => Entry(0, false, FreeSlots())), {})
  }

  /** The tuples a request really carries. */
  function Tuples(req: Request): seq<Tuple> {
    req.notifications[..if req.count < |req.notifications| then req.count else |req.notifications|]
  }

  function MessageOf(msgInfo: U64): Option<Message> {
    match msgInfo % 8
    case 0 => Some(Add)
    case 1 => Some(Remove)
    case 2 => Some(Setup)
    case 3 => Some(Destroy)
    case 4 => Some(Assign)
    case 5 => Some(Unassign)
    case _ => None
  }

  // --- Lookups ---------------------------------------------------------------

  /** The first position whose element satisfies `p`. */
  function Position<T>(s: seq<T>, p: T -> bool): (r: Option<nat>)
    ensures r.Some? ==> r.value < |s| && p(s[r.value]) && forall j | 0 <= j < r.value :: !p(s[j])
    ensures r.None? ==> forall j | 0 <= j < |s| :: !p(s[j])
  {
    if s == [] then None
    else if p(s[0]) then Some(0)
    else
      match Position(s[1..], p)
      case None =>
        None
      case Some(k) =>
        Some(k + 1)
  }

  predicate Serves(entry: Entry, uuid: nat) {
    entry.inUse && entry.serviceUuid == uuid
  }

  predicate Matches(m: Mapping, cookie: nat) {
    m.inUse && m.cookie == cookie
  }

  function FindEntry(entries: seq<Entry>, uuid: nat): (r: Option<nat>)
    ensures r.Some? ==> r.value < |entries| && Serves(entries[r.value], uuid)
    ensures r.Some? ==> forall j | 0 <= j < r.value :: !Serves(entries[j], uuid)
    ensures r.None? ==> forall j | 0 <= j < |entries| :: !Serves(entries[j], uuid)
  {
    Position(entries, entry => Serves(entry, uuid))
  }

  function FindEmpty(entries: seq<Entry>): (r: Option<nat>)
    ensures r.Some? ==> r.value < |entries| && !entries[r.value].inUse
    ensures r.Some? ==> forall j | 0 <= j < r.value :: entries[j].inUse
    ensures r.None? ==> forall j | 0 <= j < |entries| :: entries[j].inUse
  {
    Position(entries, (entry: Entry) => !entry.inUse)
  }

  function FindCookie(slots: seq<Mapping>, cookie: nat): (r: Option<nat>)
    ensures r.Some? ==> r.value < |slots| && Matches(slots[r.value], cookie)
    ensures r.Some? ==> forall j | 0 <= j < r.value :: !Matches(slots[j], cookie)
    ensures r.None? ==> forall j | 0 <= j < |slots| :: !Matches(slots[j], cookie)
  {
    Position(slots, m => Matches(m, cookie))
  }

  function FindFree(slots: seq<Mapping>): (r: Option<nat>)
    ensures r.Some? ==> r.value < |slots| && !slots[r.value].inUse
    ensures r.Some? ==> forall j | 0 <= j < r.value :: slots[j].inUse
    ensures r.None? ==> forall j | 0 <= j < |slots| :: slots[j].inUse
  {
    Position(slots, (m: Mapping) => !m.inUse)
  }

  // --- One entry's slots together with the bitmap -----------------------------

  datatype Table = Table(slots: seq<Mapping>, bits: set<nat>)

  /** What a request can be refused with. */
  type Refusal = code: ErrorCode | code != Ok witness InvalidParameters

  datatype Outcome = Done(table: Table) | Refused(code: Refusal)

  // What registering does once no mapping holds the tuple's cookie.
  function Claim(tb: Table, src: U16, t: Tuple): Outcome {
    if t.id >= ID_LIMIT then Refused(InvalidParameters)
    else if t.id in tb.bits then Refused(InvalidParameters)
    else
      match FindFree(tb.slots)
      case None => Refused(NoMemory)
      case Some(k) =>
        Done(Table(tb.slots[k := Mapping(t.cookie, t.id, t.ntype, src, true)], tb.bits + {t.id}))
  }

  // What unregistering does at the slot found for the tuple's cookie.
  function Release(tb: Table, k: nat, src: U16, t: Tuple): Outcome
    requires k < |tb.slots|
  {
    var m := tb.slots[k];
    if m.id != t.id || m.ntype != t.ntype || m.srcId != src then Refused(InvalidParameters)
    else Done(Table(tb.slots[k := FREE], tb.bits - {m.id}))
  }

  /** The register loop: cookies are looked up in `base`, the slots before the request. */
  function RegisterLoop(base: seq<Mapping>, tb: Table, src: U16, ts: seq<Tuple>): Outcome
    decreases |ts|
  {
    if ts == [] then Done(tb)
    else if FindCookie(base, ts[0].cookie).Some? then Refused(InvalidParameters)
    else
      match Claim(tb, src, ts[0])
      case Refused(code) => Refused(code)
      case Done(next) => RegisterLoop(base, next, src, ts[1..])
  }

  /** The unregister loop: cookies are looked up in `base`, fields are read from the copy. */
  function UnregisterLoop(base: seq<Mapping>, tb: Table, src: U16, ts: seq<Tuple>): Outcome
    requires |base| == |tb.slots|
    decreases |ts|
  {
    if ts == [] then Done(tb)
    else
      match FindCookie(base, ts[0].cookie)
      case None => Refused(InvalidParameters)
      case Some(k) =>
        match Release(tb, k, src, ts[0])
        case Refused(code) => Refused(code)
        case Done(next) => UnregisterLoop(base, next, src, ts[1..])
  }

  /** The Assign validation pass: old ids are read from `base` each time. */
  function AssignCheck(base: seq<Mapping>, bits: set<nat>, ts: seq<Tuple>): Option<set<nat>>
    decreases |ts|
  {
    if ts == [] then Some(bits)
    else
      match FindCookie(base, ts[0].cookie)
      case None => None
      case Some(k) =>
        var cleared := bits - {base[k].id};
        if ts[0].id >= ID_LIMIT || ts[0].id in cleared then None
        else AssignCheck(base, cleared + {ts[0].id}, ts[1..])
  }

  predicate AllFound(slots: seq<Mapping>, ts: seq<Tuple>) {
    forall i | 0 <= i < |ts| :: FindCookie(slots, ts[i].cookie).Some?
  }

  // Rewriting a slot but not its cookie moves no lookup.
  lemma LookupKept(slots: seq<Mapping>, k: nat, m: Mapping, cookie: nat)
    requires k < |slots| && m.inUse == slots[k].inUse && m.cookie == slots[k].cookie
    ensures FindCookie(slots[k := m], cookie) == FindCookie(slots, cookie)
  {
    var a, b := FindCookie(slots, cookie), FindCookie(slots[k := m], cookie);
    assert forall j | 0 <= j < |slots| :: Matches(slots[j], cookie) <==> Matches(slots[k := m][j], cookie);
  }

  lemma AllFoundKept(slots: seq<Mapping>, k: nat, m: Mapping, ts: seq<Tuple>)
    requires k < |slots| && m.inUse == slots[k].inUse && m.cookie == slots[k].cookie
    requires ts != [] && AllFound(slots, ts)
    ensures AllFound(slots[k := m], ts[1..])
  {
    forall i | 0 <= i < |ts[1..]|
      ensures FindCookie(slots[k := m], ts[1..][i].cookie).Some?
    {
      assert ts[1..][i] == ts[i + 1];
      LookupKept(slots, k, m, ts[1..][i].cookie);
    }
  }

  /** The Assign apply pass. */
  function AssignApply(slots: seq<Mapping>, ts: seq<Tuple>): (r: seq<Mapping>)
    requires AllFound(slots, ts)
    ensures |r| == |slots|
    decreases |ts|
  {
    if ts == [] then slots
    else
      var k := FindCookie(slots, ts[0].cookie).value;
      var m := slots[k].(id := ts[0].id, ntype := ts[0].ntype);
      AllFoundKept(slots, k, m, ts);
      AssignApply(slots[k := m], ts[1..])
  }

  /** The Unassign apply pass, on slots and bitmap together. */
  function UnassignApply(tb: Table, ts: seq<Tuple>): (r: Table)
    requires AllFound(tb.slots, ts)
    ensures |r.slots| == |tb.slots|
    decreases |ts|
  {
    if ts == [] then tb
    else
      var k := FindCookie(tb.slots, ts[0].cookie).value;
      var m := tb.slots[k].(id := 0, ntype := Global);
      AllFoundKept(tb.slots, k, m, ts);
      UnassignApply(Table(tb.slots[k := m], tb.bits - {tb.slots[k].id}), ts[1..])
  }

  // A tuple that passes the Assign check has its cookie registered.
  lemma {:induction false} CheckedAreFound(base: seq<Mapping>, bits: set<nat>, ts: seq<Tuple>)
    requires AssignCheck(base, bits, ts).Some?
    ensures AllFound(base, ts)
    decreases |ts|
  {
    if ts != [] {
      var k := FindCookie(base, ts[0].cookie).value;
      CheckedAreFound(base, bits - {base[k].id} + {ts[0].id}, ts[1..]);
      forall i | 0 <= i < |ts|
        ensures FindCookie(base, ts[i].cookie).Some?
      {
        if i > 0 {
          assert ts[i] == ts[1..][i - 1];
        }
      }
    }
  }

  // ... and asks for an id inside the bitmap.
  lemma {:induction false} CheckedFit(base: seq<Mapping>, bits: set<nat>, ts: seq<Tuple>)
    requires AssignCheck(base, bits, ts).Some?
    ensures forall i | 0 <= i < |ts| :: ts[i].id < ID_LIMIT
    decreases |ts|
  {
    if ts != [] {
      var k := FindCookie(base, ts[0].cookie).value;
      CheckedFit(base, bits - {base[k].id} + {ts[0].id}, ts[1..]);
      assert forall i | 1 <= i < |ts| :: ts[i] == ts[1..][i - 1];
    }
  }

  // --- The four kinds of batch, as the handlers run them on one entry ---------

  datatype Kind = Register | Unregister | Reassign | Clear

  function KindOf(msg: Message): Kind {
    match msg
    case Add => Register
    case Setup => Register
    case Remove => Unregister
    case Destroy => Unregister
    case Assign => Reassign
    case Unassign => Clear
  }

  function Batch(kind: Kind, tb: Table, src: U16, ts: seq<Tuple>): (r: Outcome)
  {
    match kind
    case Register => RegisterLoop(tb.slots, tb, src, ts)
    case Unregister => UnregisterLoop(tb.slots, tb, src, ts)
    case Reassign =>
      if AssignCheck(tb.slots, tb.bits, ts).None? then Refused(InvalidParameters)
      else
        CheckedAreFound(tb.slots, tb.bits, ts);
        Done(Table(AssignApply(tb.slots, ts), AssignCheck(tb.slots, tb.bits, ts).value))
    case Clear =>
      if AllFound(tb.slots, ts) then Done(UnassignApply(tb, ts)) else Refused(InvalidParameters)
  }

  // --- The service ------------------------------------------------------------

  /** The entry for `uuid`, opened in the first empty place when there is none. */
  function FindOrCreate(entries: seq<Entry>, uuid: Uuid): (r: Option<(nat, seq<Entry>)>)
    ensures r.None? <==> forall j | 0 <= j < |entries| :: entries[j].inUse && entries[j].serviceUuid != uuid
    ensures r.Some? ==> r.value.0 < |entries| == |r.value.1| && Serves(r.value.1[r.value.0], uuid)
    ensures r.Some? ==> forall j | 0 <= j < |entries| && j != r.value.0 :: r.value.1[j] == entries[j]
    ensures r.Some? && Serves(entries[r.value.0], uuid) ==> r.value.1 == entries
    ensures r.Some? && !Serves(entries[r.value.0], uuid) ==>
              && (forall j | 0 <= j < |entries| :: !Serves(entries[j], uuid))
              && !entries[r.value.0].inUse && (forall j | 0 <= j < r.value.0 :: entries[j].inUse)
              && r.value.1[r.value.0] == Entry(uuid, true, FreeSlots())
  {
    match FindEntry(entries, uuid)
    case Some(e) => Some((e, entries))
    case None =>
      match FindEmpty(entries)
      case None => None
      case Some(e) => Some((e, entries[e := Entry(uuid, true, FreeSlots())]))
  }

  // Runs a batch on entry `e` and writes it back only when all of it succeeds.
  function Commit(s: State, e: nat, kind: Kind, src: U16, ts: seq<Tuple>): (State, ErrorCode)
    requires e < |s.entries|
  {
    match Batch(kind, Table(s.entries[e].mappings, s.bits), src, ts)
    case Refused(code) => (s, code)
    case Done(tb) => (State(s.entries[e := s.entries[e].(mappings := tb.slots)], tb.bits), Ok)
  }

  function Handle(s: State, msg: Message, req: Request): (State, ErrorCode) {
    if KindOf(msg) == Register then
      if req.count < 1 || req.count > MAX_TUPLES then (s, InvalidParameters)
      else
        match FindOrCreate(s.entries, req.receiverUuid)
        case None => (s, NoMemory)
        case Some((e, entries)) => Commit(State(entries, s.bits), e, Register, req.srcId, Tuples(req))
    else
      match FindEntry(s.entries, req.receiverUuid)
      case None => (s, InvalidParameters)
      case Some(e) => Commit(s, e, KindOf(msg), req.srcId, Tuples(req))
  }

  /** The whole service: None answers a message id the service does not know. */
  function Step(s: State, req: Request): (State, Option<ErrorCode>) {
    match MessageOf(req.msgInfo)
    case None => (s, None)
    case Some(msg) => var (next, code) := Handle(s, msg, req); (next, Some(code))
  }

  /** The state after a run of requests. */
  function After(s: State, reqs: seq<Request>): State
    decreases |reqs|
  {
    if reqs == [] then s else After(Step(s, reqs[0]).0, reqs[1..])
  }
}
