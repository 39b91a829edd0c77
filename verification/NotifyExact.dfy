/**
 * The bitmap agrees with the tables. A bit is set exactly when one and only one
 * in-use mapping, over all entries, holds that id. `lo` is the smallest id that
 * counts: 1 where id 0 marks an unassigned mapping, 0 in runs that never
 * unassign.
 */
module NotifyExact {
  import opened Outcomes
  import opened NotifySpec
  import opened NotifyBatch

  // --- Statements -------------------------------------------------------------

  predicate SlotOk(m: Mapping) {
    if m.inUse then m.id < 64 else m == Mapping(0, 0, Global, 0, false)
  }

  predicate SlotsOk(slots: seq<Mapping>) {
    |slots| == 64 && forall k | 0 <= k < |slots| :: SlotOk(slots[k])
  }

  /** Table sizes; ids in range; what is not in use holds the default value. */
  ghost predicate Shape(s: State) {
    && |s.entries| == 16
    && (forall e | 0 <= e < |s.entries| :: SlotsOk(s.entries[e].mappings))
    && (forall e | 0 <= e < |s.entries| && !s.entries[e].inUse :: s.entries[e] == Entry(0, false, FreeSlots()))
  }

  predicate Holds(s: State, e: nat, k: nat, id: nat) {
    && e < |s.entries|
    && k < |s.entries[e].mappings|
    && s.entries[e].mappings[k].inUse
    && s.entries[e].mappings[k].id == id
  }

  /** Bit `i` is set exactly when one and only one in-use mapping has id `i`. */
  ghost predicate Exact(s: State, lo: nat) {
    && (forall i | i in s.bits :: lo <= i < 64)
    && (forall i: nat | lo <= i :: i in s.bits <==> exists e, k :: Holds(s, e, k, i))
    && (forall e, k, e', k', i: nat | lo <= i && Holds(s, e, k, i) && Holds(s, e', k', i) :: e == e' && k == k')
  }

  /**
   * What a caller must keep to for `Exact(_, lo)` to survive the request: ids
   * from `lo`, and an Assign renames no mapping twice. Where id 0 counts there is
   * no Unassign, and a release from source 0 repeats no cookie.
   */
  ghost predicate Careful(s: State, req: Request, lo: nat) {
    var msg, ts := MessageOf(req.msgInfo), Tuples(req);
    msg.Some? ==>
      && lo <= 1
      && (KindOf(msg.value) in {Register, Reassign} ==> forall i | 0 <= i < |ts| :: lo <= ts[i].id)
      && (KindOf(msg.value) == Reassign ==> OrderlyRequest(s, msg.value, req))
      && (KindOf(msg.value) == Unregister && lo == 0 ==> DistinctCookies(ts) || req.srcId != 0)
      && (KindOf(msg.value) == Clear ==> lo == 1)
  }

  /** Every request of a run is careful when it comes. */
  ghost predicate CarefulRun(s: State, reqs: seq<Request>, lo: nat)
    decreases |reqs|
  {
    reqs == [] || (Careful(s, reqs[0], lo) && CarefulRun(Step(s, reqs[0]).0, reqs[1..], lo))
  }

  // --- One entry against the rest ---------------------------------------------

  // The id a slot accounts for.
  function Own(m: Mapping, lo: nat): set<nat> {
    if m.inUse && lo <= m.id then {m.id} else {}
  }

  function Ids(slots: seq<Mapping>, lo: nat): (s: set<nat>)
    ensures forall i: nat :: i in s <==> exists k | 0 <= k < |slots| :: i in Own(slots[k], lo)
  {
    set k: nat, i | k < |slots| && i in Own(slots[k], lo) :: i
  }

  ghost predicate Unique(slots: seq<Mapping>, lo: nat) {
    forall j, k, i: nat | 0 <= j < |slots| && 0 <= k < |slots| && i in Own(slots[j], lo) && i in Own(slots[k], lo) ::
      j == k
  }

  // The slots of one entry account for every bit that `others` do not hold.
  ghost predicate Fits(tb: Table, others: set<nat>, lo: nat) {
    && SlotsOk(tb.slots)
    && Unique(tb.slots, lo)
    && Ids(tb.slots, lo) !! others
    && tb.bits == others + Ids(tb.slots, lo)
    && (forall i | i in tb.bits :: lo <= i < ID_LIMIT)
  }

  // Every table edit is this one: a slot is rewritten, its old bit cleared, its new one set.
  lemma Rewrite(tb: Table, others: set<nat>, lo: nat, k: nat, m: Mapping)
    requires Fits(tb, others, lo) && k < |tb.slots| && SlotOk(m)
    requires Own(m, lo) !! tb.bits - Own(tb.slots[k], lo)
    ensures Fits(Table(tb.slots[k := m], tb.bits - Own(tb.slots[k], lo) + Own(m, lo)), others, lo)
  {
    var after := tb.slots[k := m];
    assert forall j | 0 <= j < |after| && j != k :: after[j] == tb.slots[j];
    forall i: nat
      ensures i in Ids(after, lo) <==> i in Ids(tb.slots, lo) - Own(tb.slots[k], lo) + Own(m, lo)
    {
      if i in Ids(after, lo) {
        var j :| 0 <= j < |after| && i in Own(after[j], lo);
        assert j != k ==> i in Own(tb.slots[j], lo);
      }
      if i in Ids(tb.slots, lo) && i !in Own(tb.slots[k], lo) {
        var j :| 0 <= j < |tb.slots| && i in Own(tb.slots[j], lo);
        assert i in Own(after[j], lo);
      }
      if i in Own(m, lo) {
        assert i in Own(after[k], lo);
      }
    }
    forall j, j', i: nat | 0 <= j < |after| && 0 <= j' < |after| && i in Own(after[j], lo) && i in Own(after[j'], lo)
      ensures j == j'
    {
      assert j != k ==> i in Own(tb.slots[j], lo) && i in Ids(tb.slots, lo);
      assert j' != k ==> i in Own(tb.slots[j'], lo) && i in Ids(tb.slots, lo);
    }
    assert Own(tb.slots[k], lo) <= Ids(tb.slots, lo);
  }

  lemma ClaimFits(tb: Table, others: set<nat>, lo: nat, src: U16, t: Tuple)
    requires Fits(tb, others, lo) && lo <= t.id && Claim(tb, src, t).Done?
    ensures Fits(Claim(tb, src, t).table, others, lo)
  {
    var k := FindFree(tb.slots).value;
    Rewrite(tb, others, lo, k, Mapping(t.cookie, t.id, t.ntype, src, true));
  }

  // With `lo` 1 a released slot may even be free already: it holds id 0, which owns no bit.
  lemma ReleaseFits(tb: Table, others: set<nat>, lo: nat, k: nat, src: U16, t: Tuple)
    requires Fits(tb, others, lo) && k < |tb.slots| && Release(tb, k, src, t).Done?
    requires lo == 1 || (lo == 0 && tb.slots[k].inUse)
    ensures Fits(Release(tb, k, src, t).table, others, lo)
  {
    Rewrite(tb, others, lo, k, FREE);
    assert tb.bits - {tb.slots[k].id} == tb.bits - Own(tb.slots[k], lo);
  }

  lemma OneFits(kind: Kind, tb: Table, others: set<nat>, lo: nat, src: U16, t: Tuple)
    requires Fits(tb, others, lo) && ApplyOne(kind, tb, src, t).Done?
    requires lo <= 1 && (kind in {Register, Reassign} ==> lo <= t.id) && (kind == Clear ==> lo == 1)
    ensures Fits(ApplyOne(kind, tb, src, t).table, others, lo)
  {
    if kind == Register {
      ClaimFits(tb, others, lo, src, t);
    } else {
      var k := FindCookie(tb.slots, t.cookie).value;
      var m := tb.slots[k];
      assert tb.bits - {m.id} == tb.bits - Own(m, lo);
      match kind
      case Unregister => ReleaseFits(tb, others, lo, k, src, t);
      case Reassign => Rewrite(tb, others, lo, k, m.(id := t.id, ntype := t.ntype));
      case Clear =>
        Rewrite(tb, others, lo, k, m.(id := 0, ntype := Global));
        assert Own(m.(id := 0, ntype := Global), lo) == {};
        assert tb.bits - Own(m, lo) + {} == tb.bits - Own(m, lo);
    }
  }

  lemma {:induction false} AllFit(kind: Kind, tb: Table, others: set<nat>, lo: nat, src: U16, ts: seq<Tuple>)
    requires Fits(tb, others, lo) && ApplyAll(kind, tb, src, ts).Done?
    requires lo <= 1 && (kind == Clear ==> lo == 1)
    requires kind in {Register, Reassign} ==> forall i | 0 <= i < |ts| :: lo <= ts[i].id
    ensures Fits(ApplyAll(kind, tb, src, ts).table, others, lo)
    decreases |ts|
  {
    if ts != [] {
      OneFits(kind, tb, others, lo, src, ts[0]);
      assert forall i | 0 <= i < |ts[1..]| :: ts[1..][i] == ts[i + 1];
      AllFit(kind, ApplyOne(kind, tb, src, ts[0]).table, others, lo, src, ts[1..]);
    }
  }

  // Register and unregister batches keep the bitmap exact even with repeated cookies.
  lemma {:induction false} RegisterFits(
        base: seq<Mapping>, tb: Table, others: set<nat>, lo: nat, src: U16, ts: seq<Tuple>)
    requires Fits(tb, others, lo) && RegisterLoop(base, tb, src, ts).Done?
    requires forall i | 0 <= i < |ts| :: lo <= ts[i].id
    ensures Fits(RegisterLoop(base, tb, src, ts).table, others, lo)
    decreases |ts|
  {
    if ts != [] {
      ClaimFits(tb, others, lo, src, ts[0]);
      assert forall i | 0 <= i < |ts[1..]| :: ts[1..][i] == ts[i + 1];
      RegisterFits(base, Claim(tb, src, ts[0]).table, others, lo, src, ts[1..]);
    }
  }

  // A source other than 0 never releases a slot that is free already.
  lemma {:induction false} UnregisterFits(
        base: seq<Mapping>, tb: Table, others: set<nat>, lo: nat, src: U16, ts: seq<Tuple>)
    requires Fits(tb, others, lo) && |base| == |tb.slots| && UnregisterLoop(base, tb, src, ts).Done?
    requires lo == 1 || (lo == 0 && src != 0)
    ensures Fits(UnregisterLoop(base, tb, src, ts).table, others, lo)
    decreases |ts|
  {
    if ts != [] {
      var k := FindCookie(base, ts[0].cookie).value;
      assert SlotOk(tb.slots[k]);
      ReleaseFits(tb, others, lo, k, src, ts[0]);
      UnregisterFits(base, Release(tb, k, src, ts[0]).table, others, lo, src, ts[1..]);
    }
  }

  // What a batch must keep to for its table to go on fitting the bitmap.
  ghost predicate Keeps(kind: Kind, slots: seq<Mapping>, lo: nat, src: U16, ts: seq<Tuple>) {
    && lo <= 1 && (kind == Clear ==> lo == 1) && (kind == Reassign ==> Settled(slots, ts))
    && (kind == Unregister && lo == 0 ==> DistinctCookies(ts) || src != 0)
    && (kind in {Register, Reassign} ==> forall i | 0 <= i < |ts| :: lo <= ts[i].id)
  }

  lemma BatchFits(kind: Kind, tb: Table, others: set<nat>, lo: nat, src: U16, ts: seq<Tuple>)
    requires Fits(tb, others, lo) && Batch(kind, tb, src, ts).Done? && Keeps(kind, tb.slots, lo, src, ts)
    ensures Fits(Batch(kind, tb, src, ts).table, others, lo)
  {
    if kind == Register {
      RegisterFits(tb.slots, tb, others, lo, src, ts);
    } else if kind == Unregister && (lo == 1 || src != 0) {
      UnregisterFits(tb.slots, tb, others, lo, src, ts);
    } else {
      BatchInOrder(kind, tb, src, ts);
      AllFit(kind, tb, others, lo, src, ts);
    }
  }

  // --- From one entry to the whole table ---------------------------------------

  // The ids held outside entry `e`.
  ghost function Others(s: State, e: nat, lo: nat): (r: set<nat>)
    requires e < |s.entries|
    ensures forall i: nat :: i in r <==> i in s.bits && exists e', k :: e' != e && lo <= i && Holds(s, e', k, i)
  {
    set i | i in s.bits && exists e', k :: e' != e && lo <= i && Holds(s, e', k, i)
  }

  lemma ExactFits(s: State, e: nat, lo: nat)
    requires Shape(s) && Exact(s, lo) && e < |s.entries|
    ensures Fits(Table(s.entries[e].mappings, s.bits), Others(s, e, lo), lo)
  {
    var slots := s.entries[e].mappings;
    forall i: nat
      ensures i in Ids(slots, lo) <==> lo <= i && exists k :: Holds(s, e, k, i)
    {
      if i in Ids(slots, lo) {
        var k :| 0 <= k < |slots| && i in Own(slots[k], lo);
        assert Holds(s, e, k, i);
      }
      if lo <= i && exists k :: Holds(s, e, k, i) {
        var k: nat :| Holds(s, e, k, i);
        assert i in Own(slots[k], lo);
      }
    }
    forall i: nat | i in s.bits
      ensures i in Others(s, e, lo) + Ids(slots, lo)
    {
      var e', k :| Holds(s, e', k, i);
    }
    forall j: nat, k: nat, i: nat | j < |slots| && k < |slots| && i in Own(slots[j], lo) && i in Own(slots[k], lo)
      ensures j == k
    {
      assert Holds(s, e, j, i) && Holds(s, e, k, i);
    }
    assert Others(s, e, lo) <= s.bits;
    assert Ids(slots, lo) <= s.bits;
  }

  lemma FitsExact(s: State, e: nat, lo: nat, tb: Table)
    requires Shape(s) && Exact(s, lo) && e < |s.entries|
    requires Fits(tb, Others(s, e, lo), lo)
    ensures Exact(State(s.entries[e := s.entries[e].(mappings := tb.slots)], tb.bits), lo)
  {
    var next := State(s.entries[e := s.entries[e].(mappings := tb.slots)], tb.bits);
    var others := Others(s, e, lo);
    assert forall e', k, i: nat | e' != e :: Holds(next, e', k, i) <==> Holds(s, e', k, i);
    assert forall k: nat, i: nat | lo <= i && Holds(next, e, k, i) :: i in Own(tb.slots[k], lo);
    forall i: nat | lo <= i
      ensures i in next.bits <==> exists e', k :: Holds(next, e', k, i)
    {
      if i in others {
        var e', k :| e' != e && Holds(s, e', k, i);
        assert Holds(next, e', k, i);
      } else if i in Ids(tb.slots, lo) {
        var k :| 0 <= k < |tb.slots| && i in Own(tb.slots[k], lo);
        assert Holds(next, e, k, i);
      }
      if exists e', k :: Holds(next, e', k, i) {
        var e', k :| Holds(next, e', k, i);
        if e' != e {
          assert Holds(s, e', k, i);
          assert i in others;
        }
      }
    }
    forall e', k', e'', k'', i: nat | lo <= i && Holds(next, e', k', i) && Holds(next, e'', k'', i)
      ensures e' == e'' && k' == k''
    {
      assert e' != e ==> Holds(s, e', k', i) && i in s.bits && i in others;
      assert e'' != e ==> Holds(s, e'', k'', i) && i in s.bits && i in others;
      assert e' == e ==> i in Ids(tb.slots, lo);
      assert e'' == e ==> i in Ids(tb.slots, lo);
    }
  }

  lemma OpenedKeepsExact(s: State, msg: Message, req: Request, lo: nat)
    requires Shape(s) && Exact(s, lo)
    ensures Shape(Opened(s, msg, req)) && Exact(Opened(s, msg, req), lo)
  {
    var next := Opened(s, msg, req);
    assert forall e, k, i: nat :: Holds(next, e, k, i) <==> Holds(s, e, k, i);
    forall i: nat | lo <= i
      ensures i in next.bits <==> exists e, k :: Holds(next, e, k, i)
    {
      if i in s.bits {
        var e, k :| Holds(s, e, k, i);
        assert Holds(next, e, k, i);
      }
    }
  }

  // --- Theorems -----------------------------------------------------------------

  lemma {:induction false} RegisterKeepsSlots(base: seq<Mapping>, tb: Table, src: U16, ts: seq<Tuple>)
    requires SlotsOk(tb.slots) && RegisterLoop(base, tb, src, ts).Done?
    ensures SlotsOk(RegisterLoop(base, tb, src, ts).table.slots)
    decreases |ts|
  {
    if ts != [] {
      RegisterKeepsSlots(base, Claim(tb, src, ts[0]).table, src, ts[1..]);
    }
  }

  lemma {:induction false} UnregisterKeepsSlots(base: seq<Mapping>, tb: Table, src: U16, ts: seq<Tuple>)
    requires SlotsOk(tb.slots) && |base| == |tb.slots| && UnregisterLoop(base, tb, src, ts).Done?
    ensures SlotsOk(UnregisterLoop(base, tb, src, ts).table.slots)
    decreases |ts|
  {
    if ts != [] {
      UnregisterKeepsSlots(base, Release(tb, FindCookie(base, ts[0].cookie).value, src, ts[0]).table, src, ts[1..]);
    }
  }

  lemma {:induction false} AssignKeepsSlots(slots: seq<Mapping>, ts: seq<Tuple>)
    requires SlotsOk(slots) && AllFound(slots, ts) && forall i | 0 <= i < |ts| :: ts[i].id < ID_LIMIT
    ensures SlotsOk(AssignApply(slots, ts))
    decreases |ts|
  {
    if ts != [] {
      var k := FindCookie(slots, ts[0].cookie).value;
      var m := slots[k].(id := ts[0].id, ntype := ts[0].ntype);
      AllFoundKept(slots, k, m, ts);
      assert forall i | 0 <= i < |ts[1..]| :: ts[1..][i] == ts[i + 1];
      AssignKeepsSlots(slots[k := m], ts[1..]);
    }
  }

  lemma {:induction false} UnassignKeepsSlots(tb: Table, ts: seq<Tuple>)
    requires SlotsOk(tb.slots) && AllFound(tb.slots, ts)
    ensures SlotsOk(UnassignApply(tb, ts).slots)
    decreases |ts|
  {
    if ts != [] {
      var k := FindCookie(tb.slots, ts[0].cookie).value;
      var m := tb.slots[k].(id := 0, ntype := Global);
      AllFoundKept(tb.slots, k, m, ts);
      UnassignKeepsSlots(Table(tb.slots[k := m], tb.bits - {tb.slots[k].id}), ts[1..]);
    }
  }

  lemma BatchKeepsSlots(kind: Kind, tb: Table, src: U16, ts: seq<Tuple>)
    requires SlotsOk(tb.slots)
    ensures Batch(kind, tb, src, ts).Done? ==> SlotsOk(Batch(kind, tb, src, ts).table.slots)
  {
    if Batch(kind, tb, src, ts).Done? {
      match kind
      case Register => RegisterKeepsSlots(tb.slots, tb, src, ts);
      case Unregister => UnregisterKeepsSlots(tb.slots, tb, src, ts);
      case Reassign =>
        CheckedAreFound(tb.slots, tb.bits, ts);
        CheckedFit(tb.slots, tb.bits, ts);
        AssignKeepsSlots(tb.slots, ts);
      case Clear => UnassignKeepsSlots(tb, ts);
    }
  }

  /** Any request leaves the tables well shaped: sizes, ids below 64, defaults. */
  lemma StepKeepsShape(s: State, req: Request)
    requires Shape(s)
    ensures Shape(Step(s, req).0)
  {
    var msg := MessageOf(req.msgInfo);
    if msg.Some? {
      HandleIsCommit(s, msg.value, req);
      var ready := Opened(s, msg.value, req);
      var found := FindEntry(ready.entries, req.receiverUuid);
      if found.Some? {
        BatchKeepsSlots(KindOf(msg.value), Table(ready.entries[found.value].mappings, s.bits), req.srcId, Tuples(req));
      }
    }
  }

  lemma CommitKeepsExact(s: State, e: nat, kind: Kind, src: U16, ts: seq<Tuple>, lo: nat)
    requires Shape(s) && Exact(s, lo) && e < |s.entries| && Keeps(kind, s.entries[e].mappings, lo, src, ts)
    ensures Exact(Commit(s, e, kind, src, ts).0, lo)
  {
    var tb := Table(s.entries[e].mappings, s.bits);
    if Batch(kind, tb, src, ts).Done? {
      ExactFits(s, e, lo);
      BatchFits(kind, tb, Others(s, e, lo), lo, src, ts);
      FitsExact(s, e, lo, Batch(kind, tb, src, ts).table);
    }
  }

  /** A careful request keeps the bitmap exact, whatever it is answered. */
  lemma StepKeepsExact(s: State, req: Request, lo: nat)
    requires Shape(s) && Exact(s, lo) && Careful(s, req, lo)
    ensures Exact(Step(s, req).0, lo)
  {
    var msg := MessageOf(req.msgInfo);
    if msg.Some? {
      OpenedKeepsExact(s, msg.value, req, lo);
      HandleIsCommit(s, msg.value, req);
      var ready := Opened(s, msg.value, req);
      var found := FindEntry(ready.entries, req.receiverUuid);
      if found.Some? {
        CommitKeepsExact(ready, found.value, KindOf(msg.value), req.srcId, Tuples(req), lo);
      }
    }
  }

  /** Over every run of careful requests, from any exact state. */
  lemma {:induction false} RunKeepsExact(s: State, reqs: seq<Request>, lo: nat)
    requires Shape(s) && Exact(s, lo) && CarefulRun(s, reqs, lo)
    ensures Shape(After(s, reqs)) && Exact(After(s, reqs), lo)
    decreases |reqs|
  {
    if reqs != [] {
      StepKeepsShape(s, reqs[0]);
      StepKeepsExact(s, reqs[0], lo);
      RunKeepsExact(Step(s, reqs[0]).0, reqs[1..], lo);
    }
  }

  /**
   * A request not answered Ok leaves the bitmap and every mapping as they were;
   * all it may do is open an entry for a receiver it did not know.
   */
  lemma FailureIsAtomic(s: State, msg: Message, req: Request)
    requires Shape(s) && Handle(s, msg, req).1 != Ok
    ensures var next := Handle(s, msg, req).0;
            && next == Opened(s, msg, req)
            && next.bits == s.bits
            && (forall e, k, id :: Holds(next, e, k, id) <==> Holds(s, e, k, id))
            && (forall e | 0 <= e < |s.entries| :: next.entries[e].mappings == s.entries[e].mappings)
  {
    HandleIsCommit(s, msg, req);
    var ready := Opened(s, msg, req);
    if KindOf(msg) == Register && FindOrCreate(s.entries, req.receiverUuid).Some? {
      var (e, entries) := FindOrCreate(s.entries, req.receiverUuid).value;
      assert s.entries[e].mappings == entries[e].mappings;
    }
    assert forall e | 0 <= e < |s.entries| :: ready.entries[e].mappings == s.entries[e].mappings;
  }

  lemma InitiallyExact(lo: nat)
    ensures Shape(Initial()) && Exact(Initial(), lo)
  {
  }
}
