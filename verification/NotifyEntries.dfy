/**
 * What runs keep about the entry table and about single mappings: receivers
 * never move, sixteen are the limit for good, and a mapping ends only by a
 * release from the source that registered it.
 */
module NotifyEntries {
  import opened Outcomes
  import opened NotifySpec
  import opened NotifyBatch

  /** In-use entries form a prefix and serve distinct receivers. */
  ghost predicate EntryTable(s: State) {
    && |s.entries| == 16
    && (forall i, j | 0 <= i < j < |s.entries| && s.entries[j].inUse :: s.entries[i].inUse)
    && (forall i, j | 0 <= i < j < |s.entries| && s.entries[i].inUse && s.entries[j].inUse ::
          s.entries[i].serviceUuid != s.entries[j].serviceUuid)
  }

  // `next` serves every receiver of `s` at the same place.
  ghost predicate KeepsReceivers(s: State, next: State) {
    && |next.entries| == |s.entries|
    && (forall e | 0 <= e < |s.entries| && s.entries[e].inUse ::
          next.entries[e].inUse && next.entries[e].serviceUuid == s.entries[e].serviceUuid)
  }

  lemma OpenedKeepsEntries(s: State, msg: Message, req: Request)
    requires EntryTable(s)
    ensures EntryTable(Opened(s, msg, req)) && KeepsReceivers(s, Opened(s, msg, req))
  {
  }

  lemma CommitKeepsEntries(s: State, e: nat, kind: Kind, src: U16, ts: seq<Tuple>)
    requires EntryTable(s) && e < |s.entries|
    ensures EntryTable(Commit(s, e, kind, src, ts).0) && KeepsReceivers(s, Commit(s, e, kind, src, ts).0)
  {
    var next := Commit(s, e, kind, src, ts).0;
    assert forall j | 0 <= j < |s.entries| ::
        next.entries[j].inUse == s.entries[j].inUse && next.entries[j].serviceUuid == s.entries[j].serviceUuid;
  }

  lemma StepKeepsEntries(s: State, req: Request)
    requires EntryTable(s)
    ensures EntryTable(Step(s, req).0) && KeepsReceivers(s, Step(s, req).0)
  {
    var msg := MessageOf(req.msgInfo);
    if msg.Some? {
      HandleIsCommit(s, msg.value, req);
      OpenedKeepsEntries(s, msg.value, req);
      var ready := Opened(s, msg.value, req);
      var found := FindEntry(ready.entries, req.receiverUuid);
      if found.Some? {
        CommitKeepsEntries(ready, found.value, KindOf(msg.value), req.srcId, Tuples(req));
      }
    }
  }

  /** Over every run the entry table stays a prefix, and no receiver moves. */
  lemma {:induction false} RunKeepsEntries(s: State, reqs: seq<Request>)
    requires EntryTable(s)
    ensures EntryTable(After(s, reqs)) && KeepsReceivers(s, After(s, reqs))
    ensures forall uuid: Uuid | FindEntry(s.entries, uuid).Some? ::
              FindEntry(After(s, reqs).entries, uuid) == FindEntry(s.entries, uuid)
    decreases |reqs|
  {
    if reqs != [] {
      StepKeepsEntries(s, reqs[0]);
      RunKeepsEntries(Step(s, reqs[0]).0, reqs[1..]);
    }
    var last := After(s, reqs);
    forall uuid: Uuid | FindEntry(s.entries, uuid).Some?
      ensures FindEntry(last.entries, uuid) == FindEntry(s.entries, uuid)
    {
      var e := FindEntry(s.entries, uuid).value;
      assert Serves(last.entries[e], uuid);
    }
  }

  /** Once sixteen receivers are served, a seventeenth is refused for ever. */
  lemma FullForEver(s: State, reqs: seq<Request>, msg: Message, req: Request)
    requires EntryTable(s) && FindEmpty(s.entries).None?
    requires KindOf(msg) == Register && 1 <= req.count <= MAX_TUPLES
    requires FindEntry(s.entries, req.receiverUuid).None?
    ensures Handle(After(s, reqs), msg, req) == (After(s, reqs), NoMemory)
  {
    RunKeepsEntries(s, reqs);
    var last := After(s, reqs);
    if FindEntry(last.entries, req.receiverUuid).Some? {
      var e := FindEntry(last.entries, req.receiverUuid).value;
      assert Serves(s.entries[e], req.receiverUuid);
    }
  }

  // --- The life of one mapping --------------------------------------------------

  /** Mapping `k` of entry `e` is in use with this cookie and this source. */
  predicate Registered(s: State, e: nat, k: nat, cookie: nat, src: nat) {
    && e < |s.entries| && k < |s.entries[e].mappings|
    && s.entries[e].inUse
    && s.entries[e].mappings[k].inUse
    && s.entries[e].mappings[k].cookie == cookie
    && s.entries[e].mappings[k].srcId == src
  }

  /** A Remove or Destroy from `src` to the receiver `uuid` that names `cookie`. */
  predicate Releases(req: Request, uuid: Uuid, cookie: nat, src: nat) {
    && MessageOf(req.msgInfo) in {Some(Remove), Some(Destroy)}
    && req.receiverUuid == uuid
    && req.srcId == src
    && exists i | 0 <= i < |Tuples(req)| :: Tuples(req)[i].cookie == cookie
  }

  predicate SameOwner(a: Mapping, b: Mapping) {
    a.inUse == b.inUse && a.cookie == b.cookie && a.srcId == b.srcId
  }

  lemma {:induction false} RegisterKeepsSlot(base: seq<Mapping>, tb: Table, src: U16, ts: seq<Tuple>, k: nat)
    requires RegisterLoop(base, tb, src, ts).Done? && k < |tb.slots| && tb.slots[k].inUse
    ensures |RegisterLoop(base, tb, src, ts).table.slots| == |tb.slots|
    ensures RegisterLoop(base, tb, src, ts).table.slots[k] == tb.slots[k]
    decreases |ts|
  {
    if ts != [] {
      RegisterKeepsSlot(base, Claim(tb, src, ts[0]).table, src, ts[1..], k);
    }
  }

  lemma {:induction false} UnregisterKeepsSlot(base: seq<Mapping>, tb: Table, src: U16, ts: seq<Tuple>, k: nat)
    requires |base| == |tb.slots| && UnregisterLoop(base, tb, src, ts).Done? && k < |tb.slots|
    ensures |UnregisterLoop(base, tb, src, ts).table.slots| == |tb.slots|
    ensures UnregisterLoop(base, tb, src, ts).table.slots[k] != tb.slots[k] ==>
              tb.slots[k].srcId == src && exists i | 0 <= i < |ts| :: FindCookie(base, ts[i].cookie) == Some(k)
    decreases |ts|
  {
    if ts != [] {
      var k0 := FindCookie(base, ts[0].cookie).value;
      var next := Release(tb, k0, src, ts[0]).table;
      UnregisterKeepsSlot(base, next, src, ts[1..], k);
      if k0 != k && UnregisterLoop(base, tb, src, ts).table.slots[k] != tb.slots[k] {
        var i :| 0 <= i < |ts[1..]| && FindCookie(base, ts[1..][i].cookie) == Some(k);
        assert ts[i + 1] == ts[1..][i];
      }
    }
  }

  lemma {:induction false} AssignKeepsOwners(slots: seq<Mapping>, ts: seq<Tuple>, k: nat)
    requires AllFound(slots, ts) && k < |slots|
    ensures SameOwner(AssignApply(slots, ts)[k], slots[k])
    decreases |ts|
  {
    if ts != [] {
      var k0 := FindCookie(slots, ts[0].cookie).value;
      var m := slots[k0].(id := ts[0].id, ntype := ts[0].ntype);
      AllFoundKept(slots, k0, m, ts);
      AssignKeepsOwners(slots[k0 := m], ts[1..], k);
    }
  }

  lemma {:induction false} UnassignKeepsOwners(tb: Table, ts: seq<Tuple>, k: nat)
    requires AllFound(tb.slots, ts) && k < |tb.slots|
    ensures SameOwner(UnassignApply(tb, ts).slots[k], tb.slots[k])
    decreases |ts|
  {
    if ts != [] {
      var k0 := FindCookie(tb.slots, ts[0].cookie).value;
      var m := tb.slots[k0].(id := 0, ntype := Global);
      AllFoundKept(tb.slots, k0, m, ts);
      UnassignKeepsOwners(Table(tb.slots[k0 := m], tb.bits - {tb.slots[k0].id}), ts[1..], k);
    }
  }

  lemma BatchKeepsOwners(kind: Kind, tb: Table, src: U16, ts: seq<Tuple>, k: nat)
    requires Batch(kind, tb, src, ts).Done? && k < |tb.slots| && tb.slots[k].inUse
    ensures |Batch(kind, tb, src, ts).table.slots| == |tb.slots|
    ensures !SameOwner(Batch(kind, tb, src, ts).table.slots[k], tb.slots[k]) ==>
              && kind == Unregister && tb.slots[k].srcId == src
              && exists i | 0 <= i < |ts| :: ts[i].cookie == tb.slots[k].cookie
  {
    match kind
    case Register => RegisterKeepsSlot(tb.slots, tb, src, ts, k);
    case Unregister =>
      UnregisterKeepsSlot(tb.slots, tb, src, ts, k);
      if Batch(kind, tb, src, ts).table.slots[k] != tb.slots[k] {
        var i :| 0 <= i < |ts| && FindCookie(tb.slots, ts[i].cookie) == Some(k);
        assert ts[i].cookie == tb.slots[k].cookie;
      }
    case Reassign =>
      CheckedAreFound(tb.slots, tb.bits, ts);
      AssignKeepsOwners(tb.slots, ts, k);
    case Clear => UnassignKeepsOwners(tb, ts, k);
  }

  lemma StepKeepsMapping(s: State, req: Request, e: nat, k: nat, cookie: nat, src: nat)
    requires EntryTable(s) && Registered(s, e, k, cookie, src)
    requires !Releases(req, s.entries[e].serviceUuid, cookie, src)
    ensures Registered(Step(s, req).0, e, k, cookie, src)
    ensures Step(s, req).0.entries[e].serviceUuid == s.entries[e].serviceUuid
  {
    var msg := MessageOf(req.msgInfo);
    if msg.Some? {
      StepKeepsEntries(s, req);
      HandleIsCommit(s, msg.value, req);
      var ready := Opened(s, msg.value, req);
      assert Registered(ready, e, k, cookie, src);
      var tb := Table(ready.entries[e].mappings, s.bits);
      var kind, ts := KindOf(msg.value), Tuples(req);
      if FindEntry(ready.entries, req.receiverUuid) == Some(e) && Batch(kind, tb, req.srcId, ts).Done? {
        BatchKeepsOwners(kind, tb, req.srcId, ts, k);
      }
    }
  }

  /**
   * A mapping lives, at its place, with its cookie and its source, through every
   * run that holds no release of that cookie from that source to that receiver.
   */
  lemma {:induction false} RunKeepsMapping(s: State, reqs: seq<Request>, e: nat, k: nat, cookie: nat, src: nat)
    requires EntryTable(s) && Registered(s, e, k, cookie, src)
    requires forall i | 0 <= i < |reqs| :: !Releases(reqs[i], s.entries[e].serviceUuid, cookie, src)
    ensures Registered(After(s, reqs), e, k, cookie, src)
    decreases |reqs|
  {
    if reqs != [] {
      StepKeepsEntries(s, reqs[0]);
      StepKeepsMapping(s, reqs[0], e, k, cookie, src);
      assert forall i | 0 <= i < |reqs[1..]| :: reqs[1..][i] == reqs[i + 1];
      RunKeepsMapping(Step(s, reqs[0]).0, reqs[1..], e, k, cookie, src);
    }
  }
}
