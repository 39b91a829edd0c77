/**
 * When registering keeps the bitmap exact and cookies unique, exactly. Also why
 * a full entry means unassigned mappings, and never happens without.
 */
module NotifyConditions {
  import opened Outcomes
  import opened NotifySpec
  import opened NotifyBatch
  import opened NotifyExact
  import opened NotifyEntries
  import opened NotifyAbstract

  // --- Setup and Add: ids from 1 ------------------------------------------------

  lemma {:induction false} RegisterSetsBits(base: seq<Mapping>, tb: Table, src: U16, ts: seq<Tuple>)
    requires RegisterLoop(base, tb, src, ts).Done?
    ensures tb.bits <= RegisterLoop(base, tb, src, ts).table.bits
    ensures forall i | 0 <= i < |ts| :: ts[i].id in RegisterLoop(base, tb, src, ts).table.bits
    decreases |ts|
  {
    if ts != [] {
      RegisterSetsBits(base, Claim(tb, src, ts[0]).table, src, ts[1..]);
      assert forall i | 1 <= i < |ts| :: ts[i] == ts[1..][i - 1];
    }
  }

  /** A successful Setup or Add keeps the bitmap exact exactly when no id is 0. */
  lemma RegisterExactIff(s: State, msg: Message, req: Request)
    requires Shape(s) && Exact(s, 1)
    requires KindOf(msg) == Register && Handle(s, msg, req).1 == Ok
    ensures Exact(Handle(s, msg, req).0, 1) <==> forall i | 0 <= i < |Tuples(req)| :: Tuples(req)[i].id >= 1
  {
    var ts := Tuples(req);
    OpenedKeepsExact(s, msg, req, 1);
    OpenedIsFound(s, msg, req);
    var ready := Opened(s, msg, req);
    var e := FindEntry(ready.entries, req.receiverUuid).value;
    var tb := Table(ready.entries[e].mappings, s.bits);
    if forall i | 0 <= i < |ts| :: ts[i].id >= 1 {
      CommitKeepsExact(ready, e, Register, req.srcId, ts, 1);
    } else {
      CommitOk(ready, e, Register, req.srcId, ts);
      RegisterSetsBits(tb.slots, tb, req.srcId, ts);
      var i :| 0 <= i < |ts| && ts[i].id < 1;
      assert ts[i].id in Handle(s, msg, req).0.bits;
    }
  }

  // --- Setup and Add: no cookie twice -------------------------------------------------

  // Every tuple of a successful loop got a slot that was free before.
  lemma {:induction false} ClaimedSlot(base: seq<Mapping>, tb: Table, src: U16, ts: seq<Tuple>, i: nat) returns (k: nat)
    requires RegisterLoop(base, tb, src, ts).Done? && i < |ts|
    ensures |RegisterLoop(base, tb, src, ts).table.slots| == |tb.slots|
    ensures k < |tb.slots| && !tb.slots[k].inUse
    ensures Matches(RegisterLoop(base, tb, src, ts).table.slots[k], ts[i].cookie)
    decreases |ts|
  {
    var next := Claim(tb, src, ts[0]).table;
    if i == 0 {
      k := FindFree(tb.slots).value;
      RegisterKeepsSlot(base, next, src, ts[1..], k);
    } else {
      k := ClaimedSlot(base, next, src, ts[1..], i - 1);
    }
  }

  lemma {:induction false} RepeatedCookieShares(base: seq<Mapping>, tb: Table, src: U16, ts: seq<Tuple>, i: nat, j: nat)
    requires RegisterLoop(base, tb, src, ts).Done? && i < j < |ts| && ts[i].cookie == ts[j].cookie
    ensures !UniqueCookies(RegisterLoop(base, tb, src, ts).table.slots)
    decreases |ts|
  {
    var next := Claim(tb, src, ts[0]).table;
    if i == 0 {
      var a := FindFree(tb.slots).value;
      RegisterKeepsSlot(base, next, src, ts[1..], a);
      var b := ClaimedSlot(base, next, src, ts[1..], j - 1);
      assert Matches(RegisterLoop(base, tb, src, ts).table.slots[a], ts[0].cookie);
    } else {
      RepeatedCookieShares(base, next, src, ts[1..], i - 1, j - 1);
    }
  }

  lemma {:induction false} OrderedKeepsUnique(tb: Table, src: U16, ts: seq<Tuple>)
    requires UniqueCookies(tb.slots) && ApplyAll(Register, tb, src, ts).Done?
    ensures UniqueCookies(ApplyAll(Register, tb, src, ts).table.slots)
    decreases |ts|
  {
    if ts != [] {
      assert forall k | 0 <= k < |tb.slots| && tb.slots[k].inUse :: !Matches(tb.slots[k], ts[0].cookie);
      OrderedKeepsUnique(ApplyOne(Register, tb, src, ts[0]).table, src, ts[1..]);
    }
  }

  /** A successful registration keeps cookies unique in its entry exactly when it repeats none. */
  lemma RegisterUniqueIff(tb: Table, src: U16, ts: seq<Tuple>)
    requires UniqueCookies(tb.slots) && Batch(Register, tb, src, ts).Done?
    ensures UniqueCookies(Batch(Register, tb, src, ts).table.slots) <==> DistinctCookies(ts)
  {
    if DistinctCookies(ts) {
      BatchInOrder(Register, tb, src, ts);
      OrderedKeepsUnique(tb, src, ts);
    } else {
      var i, j :| 0 <= i < j < |ts| && ts[i].cookie == ts[j].cookie;
      RepeatedCookieShares(tb.slots, tb, src, ts, i, j);
    }
  }

  // --- Pigeonhole -------------------------------------------------------------------

  // Appending a live slot with an id of its own adds that id.
  lemma IdsOfAppend(front: seq<Mapping>, m: Mapping, lo: nat)
    requires Unique(front + [m], lo) && m.inUse && lo <= m.id
    ensures Unique(front, lo)
    ensures m.id !in Ids(front, lo)
    ensures Ids(front + [m], lo) == Ids(front, lo) + {m.id}
  {
    var all := front + [m];
    var n := |front|;
    assert all[n] == m && m.id in Own(all[n], lo);
    assert forall k | 0 <= k < n :: all[k] == front[k];
    forall i: nat
      ensures i in Ids(all, lo) <==> i in Ids(front, lo) + {m.id}
    {
      if i in Ids(front, lo) {
        var k :| 0 <= k < n && i in Own(front[k], lo);
        assert i in Own(all[k], lo);
      }
    }
    forall k | 0 <= k < n
      ensures m.id !in Own(front[k], lo)
    {
      assert m.id in Own(all[k], lo) ==> k == n;
    }
  }

  lemma {:induction false} LiveIdsCount(slots: seq<Mapping>, lo: nat)
    requires Unique(slots, lo) && forall k | 0 <= k < |slots| :: slots[k].inUse && lo <= slots[k].id
    ensures |Ids(slots, lo)| == |slots|
  {
    if slots == [] {
      assert Ids(slots, lo) == {};
    } else {
      var n := |slots| - 1;
      assert slots == slots[..n] + [slots[n]];
      IdsOfAppend(slots[..n], slots[n], lo);
      LiveIdsCount(slots[..n], lo);
    }
  }

  function Range(lo: nat, n: nat): (r: set<nat>)
    requires lo <= n
    ensures forall i: nat :: i in r <==> lo <= i < n
    ensures |r| == n - lo
  {
    if lo == n then {} else Range(lo, n - 1) + {n - 1}
  }

  lemma SubsetCount(a: set<nat>, b: set<nat>)
    requires a <= b
    ensures |a| <= |b| && (|a| == |b| ==> a == b)
  {
    assert b == a + (b - a);
    assert |b| == |a| + |b - a|;
  }

  // There are no 64 ids but all of them.
  lemma EveryIdHeld(ids: set<nat>, lo: nat)
    requires lo <= ID_LIMIT && |ids| == MAX_MAPPINGS
    requires forall i | i in ids :: lo <= i < ID_LIMIT
    ensures ids == Range(lo, ID_LIMIT)
  {
    SubsetCount(ids, Range(lo, ID_LIMIT));
  }

  // A full entry with every mapping numbered leaves no bit to ask for.
  lemma FullEntry(tb: Table, others: set<nat>, lo: nat, id: nat)
    requires Fits(tb, others, lo) && lo <= id < ID_LIMIT && id !in tb.bits
    requires FindFree(tb.slots).None?
    ensures exists k | 0 <= k < |tb.slots| :: tb.slots[k].inUse && tb.slots[k].id < lo
  {
    if forall k | 0 <= k < |tb.slots| :: lo <= tb.slots[k].id {
      LiveIdsCount(tb.slots, lo);
      EveryIdHeld(Ids(tb.slots, lo), lo);
    }
  }

  lemma {:induction false} RegisterOutOfSlots(
        base: seq<Mapping>, tb: Table, others: set<nat>, lo: nat, src: U16, ts: seq<Tuple>)
    requires Fits(tb, others, lo) && forall i | 0 <= i < |ts| :: lo <= ts[i].id
    requires RegisterLoop(base, tb, src, ts) == Refused(NoMemory)
    ensures exists k | 0 <= k < |tb.slots| :: tb.slots[k].inUse && tb.slots[k].id < lo
    decreases |ts|
  {
    if Claim(tb, src, ts[0]).Done? {
      ClaimFits(tb, others, lo, src, ts[0]);
      assert forall i | 0 <= i < |ts[1..]| :: ts[1..][i] == ts[i + 1];
      var next := Claim(tb, src, ts[0]).table;
      RegisterOutOfSlots(base, next, others, lo, src, ts[1..]);
      var k :| 0 <= k < |next.slots| && next.slots[k].inUse && next.slots[k].id < lo;
      assert tb.slots[k].inUse;
    } else {
      FullEntry(tb, others, lo, ts[0].id);
    }
  }

  // The entry a register request works on, when it runs out of slots there.
  lemma OutOfSlots(s: State, msg: Message, req: Request, lo: nat)
    requires Shape(s) && Exact(s, lo) && KindOf(msg) == Register && 1 <= req.count <= MAX_TUPLES
    requires forall i | 0 <= i < |Tuples(req)| :: lo <= Tuples(req)[i].id
    requires FindOrCreate(s.entries, req.receiverUuid).Some? && Handle(s, msg, req).1 == NoMemory
    ensures var ready := Opened(s, msg, req);
            var e := FindOrCreate(s.entries, req.receiverUuid).value.0;
            exists k | 0 <= k < |ready.entries[e].mappings| ::
              ready.entries[e].mappings[k].inUse && ready.entries[e].mappings[k].id < lo
  {
    OpenedKeepsExact(s, msg, req, lo);
    OpenedIsFound(s, msg, req);
    var ready := Opened(s, msg, req);
    var e := FindEntry(ready.entries, req.receiverUuid).value;
    var tb := Table(ready.entries[e].mappings, s.bits);
    ExactFits(ready, e, lo);
    RegisterOutOfSlots(tb.slots, tb, Others(ready, e, lo), lo, req.srcId, Tuples(req));
  }

  /** A register request that finds its entry full finds an unassigned mapping in it. */
  lemma OutOfSlotsMeansUnassigned(s: State, msg: Message, req: Request)
    requires Shape(s) && Exact(s, 1) && KindOf(msg) == Register
    requires forall i | 0 <= i < |Tuples(req)| :: Tuples(req)[i].id >= 1
    requires FindOrCreate(s.entries, req.receiverUuid).Some? && Handle(s, msg, req).1 == NoMemory
    ensures var e := FindOrCreate(s.entries, req.receiverUuid).value.0;
            exists k :: Holds(s, e, k, 0)
  {
    OutOfSlots(s, msg, req, 1);
    var e := FindOrCreate(s.entries, req.receiverUuid).value.0;
    var slots := Opened(s, msg, req).entries[e].mappings;
    var k :| 0 <= k < |slots| && slots[k].inUse && slots[k].id < 1;
    assert Holds(s, e, k, 0);
  }

  lemma SlotAlwaysFree(s: State, msg: Message, req: Request)
    requires Shape(s) && Exact(s, 0) && KindOf(msg) == Register && 1 <= req.count <= MAX_TUPLES
    ensures Handle(s, msg, req).1 == NoMemory <==> FindOrCreate(s.entries, req.receiverUuid).None?
  {
    if FindOrCreate(s.entries, req.receiverUuid).Some? && Handle(s, msg, req).1 == NoMemory {
      OutOfSlots(s, msg, req, 0);
    }
  }

  /**
   * In every careful run without Unassign, NoMemory is the answer exactly when a
   * new receiver finds all sixteen entries taken: a free mapping slot is always
   * there for a free bit.
   */
  lemma SlotsNeverRunOut(reqs: seq<Request>, msg: Message, req: Request)
    requires CarefulRun(Initial(), reqs, 0)
    requires KindOf(msg) == Register && 1 <= req.count <= MAX_TUPLES
    ensures var s := After(Initial(), reqs);
            Handle(s, msg, req).1 == NoMemory <==> FindOrCreate(s.entries, req.receiverUuid).None?
  {
    InitiallyExact(0);
    RunKeepsExact(Initial(), reqs, 0);
    SlotAlwaysFree(After(Initial(), reqs), msg, req);
  }
}
