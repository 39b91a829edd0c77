/**
 * Release undoes registration: a successful Setup or Add, followed by a Destroy
 * or Remove of the same tuples in any order, restores every slot and the bitmap.
 */
module NotifyInverse {
  import opened Outcomes
  import opened NotifySpec
  import opened NotifyBatch
  import opened NotifyExact

  predicate DistinctIds(ts: seq<Tuple>) {
    forall i, j | 0 <= i < j < |ts| :: ts[i].id != ts[j].id
  }

  function IdsOf(ts: seq<Tuple>): (r: set<nat>)
    ensures forall i: nat :: i in r <==> exists j | 0 <= j < |ts| :: ts[j].id == i
  {
    set j | 0 <= j < |ts| :: ts[j].id
  }

  function MappingOf(t: Tuple, src: U16): Mapping {
    Mapping(t.cookie, t.id, t.ntype, src, true)
  }

  // The tuple's mapping, in a slot that `origin` has free.
  predicate Placed(origin: seq<Mapping>, slots: seq<Mapping>, src: U16, t: Tuple)
    requires |slots| == |origin|
  {
    var found := FindCookie(slots, t.cookie);
    found.Some? && slots[found.value] == MappingOf(t, src) && origin[found.value] == FREE
  }

  // Slot `k` is as in `origin`, or holds one of the tuples.
  predicate Covered(origin: seq<Mapping>, slots: seq<Mapping>, ts: seq<Tuple>, k: nat)
    requires |slots| == |origin| && k < |slots|
  {
    slots[k] == origin[k] || exists i | 0 <= i < |ts| :: FindCookie(slots, ts[i].cookie) == Some(k)
  }

  // `slots` is `origin` with the tuples registered on top.
  ghost predicate SlotsAbove(origin: seq<Mapping>, slots: seq<Mapping>, src: U16, ts: seq<Tuple>) {
    && |slots| == |origin|
    && (forall i | 0 <= i < |ts| :: Placed(origin, slots, src, ts[i]))
    && (forall k | 0 <= k < |slots| :: Covered(origin, slots, ts, k))
  }

  ghost predicate BitsAbove(origin: set<nat>, bits: set<nat>, ts: seq<Tuple>) {
    DistinctIds(ts) && IdsOf(ts) !! origin && bits == origin + IdsOf(ts)
  }

  ghost predicate Above(origin: Table, tb: Table, src: U16, ts: seq<Tuple>) {
    DistinctCookies(ts) && SlotsAbove(origin.slots, tb.slots, src, ts) && BitsAbove(origin.bits, tb.bits, ts)
  }

  lemma SlotsPush(origin: seq<Mapping>, slots: seq<Mapping>, src: U16, ts: seq<Tuple>, t: Tuple, k0: nat)
    requires SlotsAbove(origin, slots, src, ts) && DistinctCookies(ts + [t])
    requires k0 < |slots| && !slots[k0].inUse && origin[k0] == FREE && FindCookie(slots, t.cookie).None?
    ensures SlotsAbove(origin, slots[k0 := MappingOf(t, src)], src, ts + [t])
  {
    var all, next := ts + [t], slots[k0 := MappingOf(t, src)];
    assert FindCookie(next, t.cookie) == Some(k0) by {
      assert Matches(next[k0], t.cookie);
      assert forall k | 0 <= k < |slots| && k != k0 :: next[k] == slots[k];
    }
    forall i | 0 <= i < |ts|
      ensures FindCookie(next, ts[i].cookie) == FindCookie(slots, ts[i].cookie)
    {
      assert all[i] == ts[i] && all[|ts|] == t;
      LookupUnmoved(slots, k0, next[k0], ts[i].cookie);
    }
    forall i | 0 <= i < |all|
      ensures Placed(origin, next, src, all[i])
    {
      if i < |ts| {
        assert Placed(origin, slots, src, ts[i]);
      }
    }
    forall k | 0 <= k < |next|
      ensures Covered(origin, next, all, k)
    {
      if k == k0 {
        assert all[|ts|] == t;
      } else {
        assert Covered(origin, slots, ts, k);
        if slots[k] != origin[k] {
          var i :| 0 <= i < |ts| && FindCookie(slots, ts[i].cookie) == Some(k);
          assert all[i] == ts[i];
        }
      }
    }
  }

  lemma IdsOfPush(ts: seq<Tuple>, t: Tuple)
    ensures IdsOf(ts + [t]) == IdsOf(ts) + {t.id}
  {
    var all := ts + [t];
    forall i: nat
      ensures i in IdsOf(all) <==> i in IdsOf(ts) + {t.id}
    {
      if i in IdsOf(ts) {
        var j :| 0 <= j < |ts| && ts[j].id == i;
        assert all[j].id == i;
      }
      assert all[|ts|].id == t.id;
    }
  }

  lemma BitsPush(origin: set<nat>, bits: set<nat>, ts: seq<Tuple>, t: Tuple)
    requires BitsAbove(origin, bits, ts) && t.id !in bits
    ensures BitsAbove(origin, bits + {t.id}, ts + [t])
  {
    IdsOfPush(ts, t);
    assert forall i | 0 <= i < |ts| :: ts[i].id in IdsOf(ts);
  }

  lemma RegisterOneAbove(origin: Table, tb: Table, src: U16, ts: seq<Tuple>, t: Tuple)
    requires SlotsOk(tb.slots) && SlotsOk(origin.slots)
    requires Above(origin, tb, src, ts) && ApplyOne(Register, tb, src, t).Done?
    requires DistinctCookies(ts + [t])
    ensures Above(origin, ApplyOne(Register, tb, src, t).table, src, ts + [t])
    ensures SlotsOk(ApplyOne(Register, tb, src, t).table.slots)
  {
    var k0 := FindFree(tb.slots).value;
    assert Covered(origin.slots, tb.slots, ts, k0);
    SlotsPush(origin.slots, tb.slots, src, ts, t, k0);
    BitsPush(origin.bits, tb.bits, ts, t);
  }

  lemma {:induction false} RegisterAllAbove(origin: Table, tb: Table, src: U16, done: seq<Tuple>, rest: seq<Tuple>)
    requires SlotsOk(tb.slots) && SlotsOk(origin.slots)
    requires Above(origin, tb, src, done) && DistinctCookies(done + rest)
    requires ApplyAll(Register, tb, src, rest).Done?
    ensures Above(origin, ApplyAll(Register, tb, src, rest).table, src, done + rest)
    decreases |rest|
  {
    if rest == [] {
      assert done + rest == done;
    } else {
      var next := ApplyOne(Register, tb, src, rest[0]).table;
      var all := done + rest;
      assert forall i | 0 <= i <= |done| :: (done + [rest[0]])[i] == all[i];
      RegisterOneAbove(origin, tb, src, done, rest[0]);
      assert (done + [rest[0]]) + rest[1..] == all;
      RegisterAllAbove(origin, next, src, done + [rest[0]], rest[1..]);
    }
  }

  lemma SlotsPop(origin: seq<Mapping>, slots: seq<Mapping>, src: U16, ts: seq<Tuple>)
    requires ts != [] && SlotsAbove(origin, slots, src, ts) && DistinctCookies(ts)
    requires FindCookie(slots, ts[0].cookie).Some?
    ensures SlotsAbove(origin, slots[FindCookie(slots, ts[0].cookie).value := FREE], src, ts[1..])
  {
    var k0 := FindCookie(slots, ts[0].cookie).value;
    var next, rest := slots[k0 := FREE], ts[1..];
    TailDistinct(ts);
    forall i | 0 <= i < |rest|
      ensures FindCookie(next, rest[i].cookie) == FindCookie(slots, rest[i].cookie) != Some(k0)
      ensures Placed(origin, next, src, rest[i])
    {
      assert rest[i] == ts[i + 1];
      assert Placed(origin, slots, src, ts[i + 1]);
      LookupUnmoved(slots, k0, FREE, rest[i].cookie);
    }
    forall k | 0 <= k < |next|
      ensures Covered(origin, next, rest, k)
    {
      assert Placed(origin, slots, src, ts[0]);
      assert Covered(origin, slots, ts, k);
      if k != k0 && slots[k] != origin[k] {
        var i :| 0 <= i < |ts| && FindCookie(slots, ts[i].cookie) == Some(k);
        assert rest[i - 1] == ts[i];
      }
    }
  }

  lemma IdsOfTail(ts: seq<Tuple>)
    requires ts != [] && DistinctIds(ts)
    ensures IdsOf(ts[1..]) == IdsOf(ts) - {ts[0].id}
  {
    var rest := ts[1..];
    assert forall i | 0 <= i < |rest| :: rest[i] == ts[i + 1];
    forall i: nat
      ensures i in IdsOf(rest) <==> i in IdsOf(ts) - {ts[0].id}
    {
      if i in IdsOf(ts) && i != ts[0].id {
        var j :| 0 <= j < |ts| && ts[j].id == i;
        assert rest[j - 1].id == i;
      }
    }
  }

  lemma ReleaseOneAbove(origin: Table, tb: Table, src: U16, ts: seq<Tuple>)
    requires ts != [] && Above(origin, tb, src, ts)
    ensures ApplyOne(Unregister, tb, src, ts[0]).Done?
    ensures Above(origin, ApplyOne(Unregister, tb, src, ts[0]).table, src, ts[1..])
  {
    assert Placed(origin.slots, tb.slots, src, ts[0]);
    TailDistinct(ts);
    SlotsPop(origin.slots, tb.slots, src, ts);
    IdsOfTail(ts);
  }

  lemma {:induction false} ReleaseAllAbove(origin: Table, tb: Table, src: U16, ts: seq<Tuple>)
    requires Above(origin, tb, src, ts)
    ensures ApplyAll(Unregister, tb, src, ts) == Done(origin)
    decreases |ts|
  {
    if ts == [] {
      forall k | 0 <= k < |tb.slots|
        ensures tb.slots[k] == origin.slots[k]
      {
        assert Covered(origin.slots, tb.slots, ts, k);
      }
      assert IdsOf(ts) == {};
      assert tb.slots == origin.slots;
    } else {
      ReleaseOneAbove(origin, tb, src, ts);
      ReleaseAllAbove(origin, ApplyOne(Unregister, tb, src, ts[0]).table, src, ts[1..]);
    }
  }

  // --- Any order ------------------------------------------------------------------

  lemma {:induction false} CountOnce(ts: seq<Tuple>, t: Tuple)
    requires DistinctCookies(ts)
    ensures multiset(ts)[t] <= 1
  {
    if ts != [] {
      assert ts == [ts[0]] + ts[1..];
      TailDistinct(ts);
      CountOnce(ts[1..], t);
      if ts[0] == t {
        assert t !in ts[1..];
      }
    }
  }

  lemma CountTwice(ts: seq<Tuple>, i: nat, j: nat)
    requires i < j < |ts| && ts[i] == ts[j]
    ensures multiset(ts)[ts[i]] >= 2
  {
    assert ts == ts[..i] + [ts[i]] + ts[i + 1..j] + [ts[j]] + ts[j + 1..];
  }

  lemma SameMembers(ts: seq<Tuple>, us: seq<Tuple>)
    requires multiset(us) == multiset(ts)
    ensures forall t :: t in us <==> t in ts
  {
    forall t
      ensures t in us <==> t in ts
    {
      assert t in us <==> t in multiset(us);
      assert t in ts <==> t in multiset(ts);
    }
  }

  lemma DistinctInAnyOrder(ts: seq<Tuple>, us: seq<Tuple>)
    requires multiset(us) == multiset(ts) && DistinctCookies(ts) && DistinctIds(ts)
    ensures DistinctCookies(us) && DistinctIds(us)
  {
    SameMembers(ts, us);
    forall i, j | 0 <= i < j < |us|
      ensures us[i].cookie != us[j].cookie && us[i].id != us[j].id
    {
      if us[i] == us[j] {
        CountTwice(us, i, j);
        CountOnce(ts, us[i]);
      } else {
        assert us[i] in ts && us[j] in ts;
      }
    }
  }

  lemma IdsInAnyOrder(ts: seq<Tuple>, us: seq<Tuple>)
    requires forall t :: t in us <==> t in ts
    ensures IdsOf(us) == IdsOf(ts)
  {
    forall n: nat
      ensures n in IdsOf(us) <==> n in IdsOf(ts)
    {
      if n in IdsOf(us) {
        var j :| 0 <= j < |us| && us[j].id == n;
        assert us[j] in ts;
      }
      if n in IdsOf(ts) {
        var j :| 0 <= j < |ts| && ts[j].id == n;
        assert ts[j] in us;
      }
    }
  }

  lemma SlotsInAnyOrder(origin: seq<Mapping>, slots: seq<Mapping>, src: U16, ts: seq<Tuple>, us: seq<Tuple>)
    requires SlotsAbove(origin, slots, src, ts) && forall t :: t in us <==> t in ts
    ensures SlotsAbove(origin, slots, src, us)
  {
    forall i | 0 <= i < |us|
      ensures Placed(origin, slots, src, us[i])
    {
      assert us[i] in ts;
    }
    forall k | 0 <= k < |slots|
      ensures Covered(origin, slots, us, k)
    {
      assert Covered(origin, slots, ts, k);
      if slots[k] != origin[k] {
        var i :| 0 <= i < |ts| && FindCookie(slots, ts[i].cookie) == Some(k);
        assert ts[i] in us;
      }
    }
  }

  // Releasing undoes registering on one entry's slots and the bitmap.
  lemma TableRestored(origin: Table, src: U16, ts: seq<Tuple>, us: seq<Tuple>)
    requires SlotsOk(origin.slots) && DistinctCookies(ts) && multiset(us) == multiset(ts)
    requires Batch(Register, origin, src, ts).Done?
    ensures Batch(Unregister, Batch(Register, origin, src, ts).table, src, us) == Done(origin)
  {
    BatchInOrder(Register, origin, src, ts);
    assert IdsOf([]) == {};
    assert [] + ts == ts;
    RegisterAllAbove(origin, origin, src, [], ts);
    var tb := ApplyAll(Register, origin, src, ts).table;
    DistinctInAnyOrder(ts, us);
    SameMembers(ts, us);
    IdsInAnyOrder(ts, us);
    SlotsInAnyOrder(origin.slots, tb.slots, src, ts, us);
    ReleaseAllAbove(origin, tb, src, us);
    BatchInOrder(Unregister, tb, src, us);
  }

  /**
   * A successful Setup or Add without repeated cookies, then a Destroy or Remove
   * from the same source to the same receiver with the same tuples in any order:
   * the release succeeds, and all that remains is the entry the first request
   * may have opened.
   */
  lemma ReleaseUndoesRegister(s: State, setup: Message, req: Request, destroy: Message, back: Request)
    requires Shape(s) && DistinctCookies(Tuples(req))
    requires KindOf(setup) == Register && KindOf(destroy) == Unregister
    requires Handle(s, setup, req).1 == Ok
    requires back.srcId == req.srcId && back.receiverUuid == req.receiverUuid
    requires multiset(Tuples(back)) == multiset(Tuples(req))
    ensures Handle(Handle(s, setup, req).0, destroy, back) == (Opened(s, setup, req), Ok)
  {
    OpenedIsFound(s, setup, req);
    var ready := Opened(s, setup, req);
    var e := FindEntry(ready.entries, req.receiverUuid).value;
    var origin := Table(ready.entries[e].mappings, s.bits);
    BatchInOrder(Register, origin, req.srcId, Tuples(req));
    TableRestored(origin, req.srcId, Tuples(req), Tuples(back));
    var tb := Batch(Register, origin, req.srcId, Tuples(req)).table;
    EntryUnmoved(ready.entries, e, tb.slots, req.receiverUuid);
    var after := Handle(s, setup, req).0;
    assert after.entries[e := after.entries[e].(mappings := origin.slots)] == ready.entries;
  }
}
