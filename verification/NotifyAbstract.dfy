/**
 * What the service is for, without slots, positions or a bitmap: a map from
 * receivers to cookies to bindings. Every run of careful requests answers as
 * this map does and stays equal to it.
 */
module NotifyAbstract {
  import opened Outcomes
  import opened NotifySpec
  import opened NotifyBatch
  import opened NotifyExact
  import opened NotifyEntries

  /** What a cookie is bound to; id 0 is unassigned. */
  datatype Binding = Binding(id: nat, ntype: NotifyType, src: nat)

  type Registry = map<Uuid, map<U32, Binding>>

  /** Some binding other than the one of `(uuid, cookie)` has this id. */
  ghost predicate TakenByOther(a: Registry, uuid: Uuid, cookie: nat, id: nat) {
    exists u, c :: u in a && c in a[u] && a[u][c].id == id && (u, c) != (uuid, cookie)
  }

  /** One tuple on the registry. */
  ghost function Bind(kind: Kind, a: Registry, uuid: Uuid, src: U16, t: Tuple): Result<Registry, Refusal>
    requires uuid in a
  {
    var known: map<U32, Binding> := a[uuid];
    if kind == Register then
      if t.cookie in known || t.id >= 64 || TakenByOther(a, uuid, t.cookie, t.id) then Failure(InvalidParameters)
      else if |known| >= 64 then Failure(NoMemory)
      else Success(a[uuid := known[t.cookie := Binding(t.id, t.ntype, src)]])
    else if t.cookie !in known then Failure(InvalidParameters)
    else
      match kind
      case Unregister =>
        if known[t.cookie] != Binding(t.id, t.ntype, src) then Failure(InvalidParameters)
        else Success(a[uuid := known - {t.cookie}])
      case Reassign =>
        if t.id >= 64 || TakenByOther(a, uuid, t.cookie, t.id) then Failure(InvalidParameters)
        else Success(a[uuid := known[t.cookie := Binding(t.id, t.ntype, known[t.cookie].src)]])
      case Clear => Success(a[uuid := known[t.cookie := Binding(0, Global, known[t.cookie].src)]])
  }

  ghost function BindAll(kind: Kind, a: Registry, uuid: Uuid, src: U16, ts: seq<Tuple>): Result<Registry, Refusal>
    requires uuid in a
    decreases |ts|
  {
    if ts == [] then Success(a)
    else
      match Bind(kind, a, uuid, src, ts[0])
      case Failure(code) => Failure(code)
      case Success(next) => BindAll(kind, next, uuid, src, ts[1..])
  }

  /** One request on the registry: all of its tuples, or none. */
  ghost function Serve(a: Registry, req: Request): (Registry, Option<ErrorCode>) {
    match MessageOf(req.msgInfo)
    case None => (a, None)
    case Some(msg) =>
      var uuid := req.receiverUuid;
      if KindOf(msg) == Register && !(1 <= req.count <= 7) then (a, Some(InvalidParameters))
      else if KindOf(msg) == Register && uuid !in a && |a| >= 16 then (a, Some(NoMemory))
      else if KindOf(msg) != Register && uuid !in a then (a, Some(InvalidParameters))
      else
        var ready := if uuid in a then a else a[uuid := map[]];
        match BindAll(KindOf(msg), ready, uuid, req.srcId, Tuples(req))
        case Failure(code) => (ready, Some(code))
        case Success(next) => (next, Some(Ok))
  }

  // --- The relation -----------------------------------------------------------------

  function BindingOf(m: Mapping): Binding {
    Binding(m.id, m.ntype, m.srcId)
  }

  // `known` answers every cookie as the slots do.
  ghost predicate SlotsAre(slots: seq<Mapping>, known: map<U32, Binding>) {
    forall c: U32 ::
      && (c in known <==> FindCookie(slots, c).Some?)
      && (c in known ==> known[c] == BindingOf(slots[FindCookie(slots, c).value]))
  }

  ghost predicate UniqueCookies(slots: seq<Mapping>) {
    forall j, k | 0 <= j < k < |slots| && slots[j].inUse && slots[k].inUse :: slots[j].cookie != slots[k].cookie
  }

  /** The registry is what the tables say. */
  ghost predicate Represents(s: State, a: Registry) {
    forall u: Uuid ::
      && (u in a <==> FindEntry(s.entries, u).Some?)
      && (u in a ==> SlotsAre(s.entries[FindEntry(s.entries, u).value].mappings, a[u]))
  }

  /** All that careful runs keep about the tables. */
  ghost predicate Good(s: State) {
    && Shape(s) && Exact(s, 1) && EntryTable(s)
    && (forall e | 0 <= e < |s.entries| :: UniqueCookies(s.entries[e].mappings))
  }

  /** Careful, and orderly on the receiver's slots. */
  ghost predicate Tidy(s: State, req: Request) {
    && Careful(s, req, 1)
    && (MessageOf(req.msgInfo).Some? ==> OrderlyRequest(s, MessageOf(req.msgInfo).value, req))
  }

  /** Every request of a run is tidy when it comes. */
  ghost predicate TidyRun(s: State, reqs: seq<Request>)
    decreases |reqs|
  {
    reqs == [] || (Tidy(s, reqs[0]) && TidyRun(Step(s, reqs[0]).0, reqs[1..]))
  }

  // --- Slots and cookies --------------------------------------------------------------

  lemma FindUnique(slots: seq<Mapping>, k: nat)
    requires UniqueCookies(slots) && k < |slots| && slots[k].inUse
    ensures FindCookie(slots, slots[k].cookie) == Some(k)
  {
    assert Matches(slots[k], slots[k].cookie);
  }

  // Filling a free slot.
  lemma SlotsFilled(slots: seq<Mapping>, known: map<U32, Binding>, k: nat, m: Mapping)
    requires SlotsAre(slots, known) && UniqueCookies(slots)
    requires k < |slots| && !slots[k].inUse && m.inUse && m.cookie !in known
    ensures SlotsAre(slots[k := m], known[m.cookie := BindingOf(m)]) && UniqueCookies(slots[k := m])
  {
    var next := slots[k := m];
    assert forall j | 0 <= j < |slots| && slots[j].inUse :: !Matches(slots[j], m.cookie);
    FindUnique(next, k);
    forall c: U32 | c != m.cookie
      ensures FindCookie(next, c) == FindCookie(slots, c)
    {
      LookupUnmoved(slots, k, m, c);
    }
  }

  // Rewriting the slot of a cookie.
  lemma SlotsRewritten(slots: seq<Mapping>, known: map<U32, Binding>, k: nat, m: Mapping)
    requires SlotsAre(slots, known) && UniqueCookies(slots)
    requires k < |slots| && slots[k].inUse && m.inUse && m.cookie == slots[k].cookie
    ensures SlotsAre(slots[k := m], known[m.cookie := BindingOf(m)]) && UniqueCookies(slots[k := m])
  {
    var next := slots[k := m];
    FindUnique(slots, k);
    forall c: U32
      ensures FindCookie(next, c) == FindCookie(slots, c)
    {
      LookupKept(slots, k, m, c);
    }
  }

  lemma FreedIsGone(slots: seq<Mapping>, k: nat)
    requires UniqueCookies(slots) && k < |slots| && slots[k].inUse
    ensures FindCookie(slots[k := FREE], slots[k].cookie).None?
  {
    assert forall j | 0 <= j < |slots| && j != k && slots[j].inUse :: slots[j].cookie != slots[k].cookie;
  }

  // Freeing the slot of a cookie.
  lemma SlotsFreed(slots: seq<Mapping>, known: map<U32, Binding>, k: nat)
    requires SlotsAre(slots, known) && UniqueCookies(slots)
    requires k < |slots| && slots[k].inUse
    ensures SlotsAre(slots[k := FREE], known - {slots[k].cookie}) && UniqueCookies(slots[k := FREE])
  {
    var next, cookie := slots[k := FREE], slots[k].cookie;
    FindUnique(slots, k);
    FreedIsGone(slots, k);
    forall c: U32 | c != cookie
      ensures FindCookie(next, c) == FindCookie(slots, c)
      ensures FindCookie(slots, c) != Some(k)
    {
      LookupUnmoved(slots, k, FREE, c);
    }
  }

  // --- Counting -------------------------------------------------------------------------

  // The keys of the live elements.
  function KeysOf<T>(s: seq<T>, live: T -> bool, key: T -> nat): set<nat> {
    if s == [] then {}
    else KeysOf(s[..|s| - 1], live, key) + if live(s[|s| - 1]) then {key(s[|s| - 1])} else {}
  }

  lemma {:induction false} KeyOf<T>(s: seq<T>, live: T -> bool, key: T -> nat, x: nat)
    ensures x in KeysOf(s, live, key) <==> exists i | 0 <= i < |s| :: live(s[i]) && key(s[i]) == x
  {
    if s != [] {
      var n := |s| - 1;
      KeyOf(s[..n], live, key, x);
      if x in KeysOf(s[..n], live, key) {
        var i :| 0 <= i < n && live(s[..n][i]) && key(s[..n][i]) == x;
        assert s[i] == s[..n][i];
      }
      if i :| 0 <= i < |s| && live(s[i]) && key(s[i]) == x {
        assert i < n ==> s[..n][i] == s[i];
      }
    }
  }

  // As many keys as elements exactly when every element is live.
  lemma {:induction false} KeyCount<T>(s: seq<T>, live: T -> bool, key: T -> nat)
    requires forall i, j | 0 <= i < j < |s| && live(s[i]) && live(s[j]) :: key(s[i]) != key(s[j])
    ensures |KeysOf(s, live, key)| <= |s|
    ensures |KeysOf(s, live, key)| == |s| <==> forall i | 0 <= i < |s| :: live(s[i])
  {
    if s != [] {
      var n := |s| - 1;
      var front := s[..n];
      assert forall i | 0 <= i < n :: front[i] == s[i];
      KeyCount(front, live, key);
      if live(s[n]) {
        KeyOf(front, live, key, key(s[n]));
        assert |KeysOf(s, live, key)| == |KeysOf(front, live, key)| + 1;
        assert (forall i | 0 <= i < n :: live(front[i])) <==> (forall i | 0 <= i < n :: live(s[i]));
      }
    }
  }

  lemma CookieKeys(slots: seq<Mapping>, known: map<U32, Binding>, live: Mapping -> bool, key: Mapping -> nat)
    requires forall m :: live(m) == m.inUse && key(m) == m.cookie
    requires SlotsAre(slots, known)
    ensures known.Keys == KeysOf(slots, live, key)
  {
    forall c: nat
      ensures c in known.Keys <==> c in KeysOf(slots, live, key)
    {
      KeyOf(slots, live, key, c);
      var found := FindCookie(slots, c);
      if found.Some? {
        assert live(slots[found.value]) && key(slots[found.value]) == c;
      }
      if i :| 0 <= i < |slots| && live(slots[i]) && key(slots[i]) == c {
        assert Matches(slots[i], c);
      }
    }
  }

  // A registry entry has room exactly when a slot is free.
  lemma RoomForCookie(slots: seq<Mapping>, known: map<U32, Binding>)
    requires SlotsAre(slots, known) && UniqueCookies(slots) && |slots| == 64
    ensures |known| >= 64 <==> FindFree(slots).None?
  {
    var live, key := (m: Mapping) => m.inUse, (m: Mapping) => m.cookie;
    KeyCount(slots, live, key);
    CookieKeys(slots, known, live, key);
    assert |known| == |known.Keys|;
  }

  lemma ReceiverKeys(entries: seq<Entry>, live: Entry -> bool, key: Entry -> nat, u: nat)
    requires forall entry :: live(entry) == entry.inUse && key(entry) == entry.serviceUuid
    ensures u in KeysOf(entries, live, key) <==> exists e | 0 <= e < |entries| :: Serves(entries[e], u)
  {
    KeyOf(entries, live, key, u);
    if e :| 0 <= e < |entries| && live(entries[e]) && key(entries[e]) == u {
      assert Serves(entries[e], u);
    }
    if e :| 0 <= e < |entries| && Serves(entries[e], u) {
      assert live(entries[e]) && key(entries[e]) == u;
    }
  }

  lemma ReceiverKeySet(s: State, a: Registry, live: Entry -> bool, key: Entry -> nat)
    requires forall entry :: live(entry) == entry.inUse && key(entry) == entry.serviceUuid
    requires Represents(s, a)
    ensures a.Keys == KeysOf(s.entries, live, key)
  {
    forall u: nat
      ensures u in a.Keys <==> u in KeysOf(s.entries, live, key)
    {
      ReceiverKeys(s.entries, live, key, u);
      if u in a.Keys {
        assert FindEntry(s.entries, u).Some?;
      }
      if e :| 0 <= e < |s.entries| && Serves(s.entries[e], u) {
        assert FindEntry(s.entries, u).Some?;
      }
    }
  }

  lemma RoomForReceiver(s: State, a: Registry)
    requires EntryTable(s) && Represents(s, a)
    ensures |a| >= 16 <==> FindEmpty(s.entries).None?
  {
    var live, key := (entry: Entry) => entry.inUse, (entry: Entry) => entry.serviceUuid;
    KeyCount(s.entries, live, key);
    ReceiverKeySet(s, a, live, key);
    assert |a| == |a.Keys|;
  }

  // --- The bitmap answers who holds an id --------------------------------------------

  lemma HolderIsBound(s: State, a: Registry, e: nat, k: nat, id: nat)
    requires Good(s) && Represents(s, a) && Holds(s, e, k, id)
    ensures s.entries[e].inUse && FindEntry(s.entries, s.entries[e].serviceUuid) == Some(e)
    ensures var u, c := s.entries[e].serviceUuid, s.entries[e].mappings[k].cookie;
            u in a && c in a[u] && a[u][c].id == id && FindCookie(s.entries[e].mappings, c) == Some(k)
  {
    var u := s.entries[e].serviceUuid;
    assert Serves(s.entries[e], u);
    FindUnique(s.entries[e].mappings, k);
  }

  // With the own bit taken out, a set bit means another binding.
  lemma BitIsTaken(s: State, a: Registry, uuid: Uuid, cookie: nat, id: nat)
    requires Good(s) && Represents(s, a) && uuid in a && id >= 1
    ensures var e := FindEntry(s.entries, uuid).value;
            var found := FindCookie(s.entries[e].mappings, cookie);
            TakenByOther(a, uuid, cookie, id) <==>
            id in s.bits && (found.Some? ==> s.entries[e].mappings[found.value].id != id)
  {
    var e := FindEntry(s.entries, uuid).value;
    var found := FindCookie(s.entries[e].mappings, cookie);
    if id in s.bits && (found.Some? ==> s.entries[e].mappings[found.value].id != id) {
      var e': nat, k: nat :| Holds(s, e', k, id);
      HolderIsBound(s, a, e', k, id);
      var u, c := s.entries[e'].serviceUuid, s.entries[e'].mappings[k].cookie;
      assert (u, c) != (uuid, cookie);
    }
    if TakenByOther(a, uuid, cookie, id) {
      var u, c :| u in a && c in a[u] && a[u][c].id == id && (u, c) != (uuid, cookie);
      var e' := FindEntry(s.entries, u).value;
      var k := FindCookie(s.entries[e'].mappings, c).value;
      assert Holds(s, e', k, id);
      if found.Some? && s.entries[e].mappings[found.value].id == id {
        assert Holds(s, e, found.value, id);
      }
    }
  }

  // --- Simulation -----------------------------------------------------------------------

  // `s` with entry `e` holding the table `tb`.
  function With(s: State, e: nat, tb: Table): State
    requires e < |s.entries|
  {
    State(s.entries[e := s.entries[e].(mappings := tb.slots)], tb.bits)
  }

  lemma WithGood(s: State, e: nat, kind: Kind, src: U16, t: Tuple)
    requires Good(s) && e < |s.entries| && s.entries[e].inUse
    requires kind in {Register, Reassign} ==> t.id >= 1
    requires ApplyOne(kind, Table(s.entries[e].mappings, s.bits), src, t).Done?
    requires UniqueCookies(ApplyOne(kind, Table(s.entries[e].mappings, s.bits), src, t).table.slots)
    ensures Good(With(s, e, ApplyOne(kind, Table(s.entries[e].mappings, s.bits), src, t).table))
  {
    var tb := Table(s.entries[e].mappings, s.bits);
    var one := ApplyOne(kind, tb, src, t).table;
    var next := With(s, e, one);
    ExactFits(s, e, 1);
    OneFits(kind, tb, Others(s, e, 1), 1, src, t);
    FitsExact(s, e, 1, one);
    assert forall j | 0 <= j < |s.entries| && j != e :: next.entries[j] == s.entries[j];
    assert next.entries[e].inUse == s.entries[e].inUse && next.entries[e].serviceUuid == s.entries[e].serviceUuid;
  }

  lemma WithRepresents(s: State, a: Registry, uuid: Uuid, tb: Table, known: map<U32, Binding>)
    requires Represents(s, a) && uuid in a
    requires SlotsAre(tb.slots, known)
    ensures Represents(With(s, FindEntry(s.entries, uuid).value, tb), a[uuid := known])
  {
    var e := FindEntry(s.entries, uuid).value;
    var next := With(s, e, tb);
    forall u: Uuid
      ensures FindEntry(next.entries, u) == FindEntry(s.entries, u)
      ensures u != uuid ==> FindEntry(s.entries, u) != Some(e)
      ensures u in a && u != uuid ==> SlotsAre(next.entries[FindEntry(next.entries, u).value].mappings, a[u])
    {
      EntryUnmoved(s.entries, e, tb.slots, u);
    }
    assert SlotsAre(next.entries[e].mappings, known);
  }

  // The outcome `one` on the tables is the outcome `bound` on the registry.
  ghost predicate SameOutcome(one: Outcome, bound: Result<Registry, Refusal>, a: Registry, uuid: Uuid) {
    match bound
    case Failure(code) => one == Refused(code)
    case Success(next) =>
      && one.Done? && UniqueCookies(one.table.slots)
      && uuid in next && next == a[uuid := next[uuid]]
      && SlotsAre(one.table.slots, next[uuid])
  }

  lemma BindRegister(s: State, a: Registry, uuid: Uuid, src: U16, t: Tuple)
    requires Good(s) && Represents(s, a) && uuid in a && t.id >= 1
    ensures SameOutcome(
              ApplyOne(Register, Table(s.entries[FindEntry(s.entries, uuid).value].mappings, s.bits), src, t),
              Bind(Register, a, uuid, src, t), a, uuid)
  {
    var e := FindEntry(s.entries, uuid).value;
    var slots, known := s.entries[e].mappings, a[uuid];
    BitIsTaken(s, a, uuid, t.cookie, t.id);
    RoomForCookie(slots, known);
    if FindCookie(slots, t.cookie).None? && FindFree(slots).Some? {
      SlotsFilled(slots, known, FindFree(slots).value, Mapping(t.cookie, t.id, t.ntype, src, true));
    }
  }

  lemma BindReassign(s: State, a: Registry, uuid: Uuid, src: U16, t: Tuple)
    requires Good(s) && Represents(s, a) && uuid in a && t.id >= 1
    ensures SameOutcome(
              ApplyOne(Reassign, Table(s.entries[FindEntry(s.entries, uuid).value].mappings, s.bits), src, t),
              Bind(Reassign, a, uuid, src, t), a, uuid)
  {
    var e := FindEntry(s.entries, uuid).value;
    var slots := s.entries[e].mappings;
    var found := FindCookie(slots, t.cookie);
    BitIsTaken(s, a, uuid, t.cookie, t.id);
    if found.Some? {
      SlotsRewritten(slots, a[uuid], found.value, slots[found.value].(id := t.id, ntype := t.ntype));
    }
  }

  lemma BindRelease(s: State, a: Registry, uuid: Uuid, kind: Kind, src: U16, t: Tuple)
    requires Represents(s, a) && uuid in a && kind in {Unregister, Clear}
    requires UniqueCookies(s.entries[FindEntry(s.entries, uuid).value].mappings)
    ensures SameOutcome(
              ApplyOne(kind, Table(s.entries[FindEntry(s.entries, uuid).value].mappings, s.bits), src, t),
              Bind(kind, a, uuid, src, t), a, uuid)
  {
    var e := FindEntry(s.entries, uuid).value;
    var slots := s.entries[e].mappings;
    var found := FindCookie(slots, t.cookie);
    if found.Some? {
      if kind == Unregister {
        SlotsFreed(slots, a[uuid], found.value);
      } else {
        SlotsRewritten(slots, a[uuid], found.value, slots[found.value].(id := 0, ntype := Global));
      }
    }
  }

  // Outcome of one tuple on both sides, with the slots afterwards.
  lemma BindSlots(s: State, a: Registry, uuid: Uuid, kind: Kind, src: U16, t: Tuple)
    requires Good(s) && Represents(s, a) && uuid in a
    requires kind in {Register, Reassign} ==> t.id >= 1
    ensures SameOutcome(
              ApplyOne(kind, Table(s.entries[FindEntry(s.entries, uuid).value].mappings, s.bits), src, t),
              Bind(kind, a, uuid, src, t), a, uuid)
  {
    match kind
    case Register => BindRegister(s, a, uuid, src, t);
    case Reassign => BindReassign(s, a, uuid, src, t);
    case Unregister => BindRelease(s, a, uuid, kind, src, t);
    case Clear => BindRelease(s, a, uuid, kind, src, t);
  }

  // The outcome `run` on entry `e` is the outcome `bound` on the registry.
  ghost predicate Agrees(s: State, e: nat, run: Outcome, bound: Result<Registry, Refusal>)
    requires e < |s.entries|
  {
    match bound
    case Failure(code) => run == Refused(code)
    case Success(next) => run.Done? && Good(With(s, e, run.table)) && Represents(With(s, e, run.table), next)
  }

  lemma OneSimulates(s: State, a: Registry, uuid: Uuid, kind: Kind, src: U16, t: Tuple)
    requires Good(s) && Represents(s, a) && uuid in a
    requires kind in {Register, Reassign} ==> t.id >= 1
    ensures var e := FindEntry(s.entries, uuid).value;
            var one, bound := ApplyOne(kind, Table(s.entries[e].mappings, s.bits), src, t), Bind(kind, a, uuid, src, t);
            && Agrees(s, e, one, bound)
            && (one.Done? ==> uuid in bound.value && FindEntry(With(s, e, one.table).entries, uuid) == Some(e))
  {
    BindSlots(s, a, uuid, kind, src, t);
    var e := FindEntry(s.entries, uuid).value;
    var one := ApplyOne(kind, Table(s.entries[e].mappings, s.bits), src, t);
    if one.Done? {
      WithGood(s, e, kind, src, t);
      WithRepresents(s, a, uuid, one.table, Bind(kind, a, uuid, src, t).value[uuid]);
      EntryUnmoved(s.entries, e, one.table.slots, uuid);
    }
  }

  lemma AfterOne(s: State, e: nat, kind: Kind, src: U16, ts: seq<Tuple>)
    requires e < |s.entries| && ts != []
    requires ApplyOne(kind, Table(s.entries[e].mappings, s.bits), src, ts[0]).Done?
    ensures var tb := Table(s.entries[e].mappings, s.bits);
            var next := With(s, e, ApplyOne(kind, tb, src, ts[0]).table);
            var run := ApplyAll(kind, tb, src, ts);
            && ApplyAll(kind, Table(next.entries[e].mappings, next.bits), src, ts[1..]) == run
            && (run.Done? ==> With(next, e, run.table) == With(s, e, run.table))
  {
  }

  lemma {:induction false} BindAllSimulates(s: State, a: Registry, uuid: Uuid, kind: Kind, src: U16, ts: seq<Tuple>)
    requires Good(s) && Represents(s, a) && uuid in a
    requires kind in {Register, Reassign} ==> forall i | 0 <= i < |ts| :: ts[i].id >= 1
    ensures var e := FindEntry(s.entries, uuid).value;
            Agrees(s, e, ApplyAll(kind, Table(s.entries[e].mappings, s.bits), src, ts), BindAll(kind, a, uuid, src, ts))
    decreases |ts|
  {
    var e := FindEntry(s.entries, uuid).value;
    var tb := Table(s.entries[e].mappings, s.bits);
    if ts == [] {
      assert With(s, e, tb) == s;
    } else {
      OneSimulates(s, a, uuid, kind, src, ts[0]);
      var one := ApplyOne(kind, tb, src, ts[0]);
      if one.Done? {
        var next := With(s, e, one.table);
        var bound := Bind(kind, a, uuid, src, ts[0]).value;
        assert forall i | 0 <= i < |ts[1..]| :: ts[1..][i] == ts[i + 1];
        BindAllSimulates(next, bound, uuid, kind, src, ts[1..]);
        AfterOne(s, e, kind, src, ts);
      }
    }
  }

  lemma NothingFree(cookie: nat)
    ensures FindCookie(FreeSlots(), cookie).None?
  {
    assert forall k | 0 <= k < MAX_MAPPINGS :: !Matches(FreeSlots()[k], cookie);
  }

  lemma OpenedGood(s: State, msg: Message, req: Request)
    requires Good(s)
    ensures Good(Opened(s, msg, req))
  {
    OpenedKeepsExact(s, msg, req, 1);
    OpenedKeepsEntries(s, msg, req);
    var next := Opened(s, msg, req);
    assert UniqueCookies(FreeSlots());
    assert forall e | 0 <= e < |s.entries| ::
        next.entries[e].mappings == s.entries[e].mappings || next.entries[e].mappings == FreeSlots();
  }

  lemma OtherEntryUnmoved(entries: seq<Entry>, e: nat, entry: Entry, u: Uuid)
    requires e < |entries| && !entries[e].inUse && entry.serviceUuid != u
    ensures FindEntry(entries[e := entry], u) == FindEntry(entries, u) != Some(e)
  {
    var next := entries[e := entry];
    assert forall j | 0 <= j < |entries| :: Serves(next[j], u) <==> Serves(entries[j], u);
  }

  lemma FreshIsEmpty()
    ensures SlotsAre(FreeSlots(), map[])
  {
    forall c: U32
      ensures FindCookie(FreeSlots(), c).None?
    {
      NothingFree(c);
    }
  }

  lemma OpenedRepresents(s: State, a: Registry, msg: Message, req: Request)
    requires Represents(s, a)
    requires KindOf(msg) == Register && 1 <= req.count <= MAX_TUPLES
    requires FindOrCreate(s.entries, req.receiverUuid).Some?
    ensures Represents(Opened(s, msg, req), if req.receiverUuid in a then a else a[req.receiverUuid := map[]])
  {
    var uuid := req.receiverUuid;
    var next := Opened(s, msg, req);
    OpenedIsFound(s, msg, req);
    if uuid !in a {
      var e := FindOrCreate(s.entries, uuid).value.0;
      forall u: Uuid | u != uuid
        ensures FindEntry(next.entries, u) == FindEntry(s.entries, u)
        ensures FindEntry(s.entries, u) != Some(e)
      {
        OtherEntryUnmoved(s.entries, e, next.entries[e], u);
      }
      FreshIsEmpty();
    }
  }

  lemma CommitSimulates(s: State, a: Registry, msg: Message, req: Request)
    requires Good(s) && Represents(s, a) && req.receiverUuid in a && OrderlyRequest(s, msg, req)
    requires KindOf(msg) in {Register, Reassign} ==> forall i | 0 <= i < |Tuples(req)| :: Tuples(req)[i].id >= 1
    ensures var e := FindEntry(s.entries, req.receiverUuid).value;
            var (next, code) := Commit(s, e, KindOf(msg), req.srcId, Tuples(req));
            match BindAll(KindOf(msg), a, req.receiverUuid, req.srcId, Tuples(req))
            case Failure(refused) => next == s && code == refused
            case Success(bound) => code == Ok && Good(next) && Represents(next, bound)
  {
    var e := FindEntry(s.entries, req.receiverUuid).value;
    BatchInOrder(KindOf(msg), Table(s.entries[e].mappings, s.bits), req.srcId, Tuples(req));
    BindAllSimulates(s, a, req.receiverUuid, KindOf(msg), req.srcId, Tuples(req));
  }

  lemma RegisterSimulates(s: State, a: Registry, msg: Message, req: Request)
    requires Good(s) && Represents(s, a) && Tidy(s, req) && MessageOf(req.msgInfo) == Some(msg)
    requires KindOf(msg) == Register
    ensures Handle(s, msg, req).1 == Serve(a, req).1.value
    ensures Good(Handle(s, msg, req).0) && Represents(Handle(s, msg, req).0, Serve(a, req).0)
  {
    if 1 <= req.count <= MAX_TUPLES {
      RoomForReceiver(s, a);
      if FindOrCreate(s.entries, req.receiverUuid).Some? {
        OpenedGood(s, msg, req);
        OpenedRepresents(s, a, msg, req);
        OpenedIsFound(s, msg, req);
        var ready := if req.receiverUuid in a then a else a[req.receiverUuid := map[]];
        CommitSimulates(Opened(s, msg, req), ready, msg, req);
      }
    }
  }

  lemma KnownSimulates(s: State, a: Registry, msg: Message, req: Request)
    requires Good(s) && Represents(s, a) && Tidy(s, req) && MessageOf(req.msgInfo) == Some(msg)
    requires KindOf(msg) != Register
    ensures Handle(s, msg, req).1 == Serve(a, req).1.value
    ensures Good(Handle(s, msg, req).0) && Represents(Handle(s, msg, req).0, Serve(a, req).0)
  {
    if req.receiverUuid in a {
      CommitSimulates(s, a, msg, req);
    }
  }

  /** One tidy request: the service answers as the registry does, and still is the registry. */
  lemma StepSimulates(s: State, a: Registry, req: Request)
    requires Good(s) && Represents(s, a) && Tidy(s, req)
    ensures Step(s, req).1 == Serve(a, req).1
    ensures Good(Step(s, req).0) && Represents(Step(s, req).0, Serve(a, req).0)
  {
    var msg := MessageOf(req.msgInfo);
    if msg.Some? {
      if KindOf(msg.value) == Register {
        RegisterSimulates(s, a, msg.value, req);
      } else {
        KnownSimulates(s, a, msg.value, req);
      }
    }
  }

  /** The answers to a run of requests. */
  function Answers(s: State, reqs: seq<Request>): seq<Option<ErrorCode>>
    decreases |reqs|
  {
    if reqs == [] then [] else [Step(s, reqs[0]).1] + Answers(Step(s, reqs[0]).0, reqs[1..])
  }

  ghost function Served(a: Registry, reqs: seq<Request>): (Registry, seq<Option<ErrorCode>>)
    decreases |reqs|
  {
    if reqs == [] then (a, [])
    else
      var (next, answer) := Serve(a, reqs[0]);
      var (last, answers) := Served(next, reqs[1..]);
      (last, [answer] + answers)
  }

  lemma {:induction false} RunSimulates(s: State, a: Registry, reqs: seq<Request>)
    requires Good(s) && Represents(s, a) && TidyRun(s, reqs)
    ensures Answers(s, reqs) == Served(a, reqs).1
    ensures Good(After(s, reqs)) && Represents(After(s, reqs), Served(a, reqs).0)
    decreases |reqs|
  {
    if reqs != [] {
      StepSimulates(s, a, reqs[0]);
      RunSimulates(Step(s, reqs[0]).0, Serve(a, reqs[0]).0, reqs[1..]);
    }
  }

  lemma InitiallyGood()
    ensures Good(Initial()) && Represents(Initial(), map[])
  {
    InitiallyExact(1);
    assert UniqueCookies(FreeSlots());
    assert forall u: Uuid :: FindEntry(Initial().entries, u).None?;
  }

  /** From the start, over every run of tidy requests, the service is the registry. */
  lemma ServiceIsRegistry(reqs: seq<Request>)
    requires TidyRun(Initial(), reqs)
    ensures Answers(Initial(), reqs) == Served(map[], reqs).1
    ensures Represents(After(Initial(), reqs), Served(map[], reqs).0)
    ensures Good(After(Initial(), reqs))
  {
    InitiallyGood();
    RunSimulates(Initial(), map[], reqs);
  }
}
