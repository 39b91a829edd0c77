/**
 * Batches against sequences. The handlers look cookies up in the slots as they
 * were before the request and keep a simulated bitmap; here the same batch is
 * run one tuple at a time on the current slots, and the two are shown equal
 * whenever a request names no cookie twice.
 */
module NotifyBatch {
  import opened Outcomes
  import opened NotifySpec

  predicate DistinctCookies(ts: seq<Tuple>) {
    forall i, j | 0 <= i < j < |ts| :: ts[i].cookie != ts[j].cookie
  }

  /** One tuple on the current slots. */
  function ApplyOne(kind: Kind, tb: Table, src: U16, t: Tuple): (r: Outcome)
    ensures r.Done? ==> |r.table.slots| == |tb.slots|
  {
    var found := FindCookie(tb.slots, t.cookie);
    if kind == Register then
      if found.Some? then Refused(InvalidParameters) else Claim(tb, src, t)
    else if found.None? then Refused(InvalidParameters)
    else
      var k := found.value;
      var m := tb.slots[k];
      var cleared := tb.bits - {m.id};
      match kind
      case Unregister => Release(tb, k, src, t)
      case Reassign =>
        if t.id >= ID_LIMIT || t.id in cleared then Refused(InvalidParameters)
        else Done(Table(tb.slots[k := m.(id := t.id, ntype := t.ntype)], cleared + {t.id}))
      case Clear => Done(Table(tb.slots[k := m.(id := 0, ntype := Global)], cleared))
  }

  /** The tuples in order, stopping at the first refusal. */
  function ApplyAll(kind: Kind, tb: Table, src: U16, ts: seq<Tuple>): (r: Outcome)
    ensures r.Done? ==> |r.table.slots| == |tb.slots|
    decreases |ts|
  {
    if ts == [] then Done(tb)
    else
      match ApplyOne(kind, tb, src, ts[0])
      case Refused(code) => Refused(code)
      case Done(next) => ApplyAll(kind, next, src, ts[1..])
  }

  lemma TailDistinct(ts: seq<Tuple>)
    requires DistinctCookies(ts) && ts != []
    ensures DistinctCookies(ts[1..])
    ensures forall i | 0 <= i < |ts[1..]| :: ts[1..][i].cookie != ts[0].cookie
  {
    assert forall i | 0 <= i < |ts[1..]| :: ts[1..][i] == ts[i + 1];
  }

  // Both slot tables answer the lookups of `ts` alike.
  ghost predicate SameLookups(a: seq<Mapping>, b: seq<Mapping>, ts: seq<Tuple>) {
    |a| == |b| && forall i | 0 <= i < |ts| :: FindCookie(a, ts[i].cookie) == FindCookie(b, ts[i].cookie)
  }

  // Replacing a slot by one that answers other lookups alike.
  lemma LookupUnmoved(slots: seq<Mapping>, k: nat, m: Mapping, cookie: nat)
    requires k < |slots|
    requires Matches(slots[k], cookie) == Matches(m, cookie)
    ensures FindCookie(slots[k := m], cookie) == FindCookie(slots, cookie)
  {
    var after := slots[k := m];
    assert forall j | 0 <= j < |slots| :: Matches(slots[j], cookie) <==> Matches(after[j], cookie);
  }

  // One step touches only the slot of its own cookie, so it moves no other lookup.
  lemma OneKeepsLookups(kind: Kind, base: seq<Mapping>, tb: Table, src: U16, ts: seq<Tuple>)
    requires ts != [] && DistinctCookies(ts) && SameLookups(base, tb.slots, ts)
    requires ApplyOne(kind, tb, src, ts[0]).Done?
    ensures SameLookups(base, ApplyOne(kind, tb, src, ts[0]).table.slots, ts[1..])
  {
    TailDistinct(ts);
    var next := ApplyOne(kind, tb, src, ts[0]).table;
    forall i | 0 <= i < |ts[1..]|
      ensures FindCookie(base, ts[1..][i].cookie) == FindCookie(next.slots, ts[1..][i].cookie)
    {
      var c := ts[1..][i].cookie;
      assert ts[1..][i] == ts[i + 1];
      var k := if kind == Register then FindFree(tb.slots).value else FindCookie(tb.slots, ts[0].cookie).value;
      assert next.slots == tb.slots[k := next.slots[k]];
      LookupUnmoved(tb.slots, k, next.slots[k], c);
    }
  }

  lemma {:induction false} RegisterInOrder(base: seq<Mapping>, tb: Table, src: U16, ts: seq<Tuple>)
    requires DistinctCookies(ts) && SameLookups(base, tb.slots, ts)
    ensures RegisterLoop(base, tb, src, ts) == ApplyAll(Register, tb, src, ts)
    decreases |ts|
  {
    if ts != [] && ApplyOne(Register, tb, src, ts[0]).Done? {
      TailDistinct(ts);
      OneKeepsLookups(Register, base, tb, src, ts);
      RegisterInOrder(base, ApplyOne(Register, tb, src, ts[0]).table, src, ts[1..]);
    }
  }

  lemma {:induction false} UnregisterInOrder(base: seq<Mapping>, tb: Table, src: U16, ts: seq<Tuple>)
    requires DistinctCookies(ts) && SameLookups(base, tb.slots, ts)
    ensures UnregisterLoop(base, tb, src, ts) == ApplyAll(Unregister, tb, src, ts)
    decreases |ts|
  {
    if ts != [] && ApplyOne(Unregister, tb, src, ts[0]).Done? {
      TailDistinct(ts);
      OneKeepsLookups(Unregister, base, tb, src, ts);
      UnregisterInOrder(base, ApplyOne(Unregister, tb, src, ts[0]).table, src, ts[1..]);
    }
  }

  /**
   * A tuple whose cookie a later tuple names again only repeats the id that the
   * mapping already has. Requests without repeated cookies are settled.
   */
  predicate Settled(base: seq<Mapping>, ts: seq<Tuple>) {
    forall i, j | 0 <= i < j < |ts| && ts[i].cookie == ts[j].cookie && FindCookie(base, ts[i].cookie).Some? ::
      ts[i].id == base[FindCookie(base, ts[i].cookie).value].id
  }

  // The mappings of the cookies still to come have the ids they had.
  ghost predicate SameIds(base: seq<Mapping>, slots: seq<Mapping>, ts: seq<Tuple>) {
    && SameLookups(base, slots, ts)
    && (forall i | 0 <= i < |ts| && FindCookie(base, ts[i].cookie).Some? ::
          base[FindCookie(base, ts[i].cookie).value].id == slots[FindCookie(base, ts[i].cookie).value].id)
  }

  // Whether `ts[0]` renames a mapping that a later tuple renames again.
  predicate StaleHead(base: seq<Mapping>, ts: seq<Tuple>)
    requires ts != []
  {
    && FindCookie(base, ts[0].cookie).Some?
    && ts[0].id != base[FindCookie(base, ts[0].cookie).value].id
    && exists j | 1 <= j < |ts| :: ts[j].cookie == ts[0].cookie
  }

  lemma SettledTail(base: seq<Mapping>, ts: seq<Tuple>)
    requires ts != [] && !StaleHead(base, ts)
    ensures Settled(base, ts) <==> Settled(base, ts[1..])
  {
    assert forall i | 0 <= i < |ts[1..]| :: ts[1..][i] == ts[i + 1];
    if Settled(base, ts[1..]) {
      forall i, j | 0 <= i < j < |ts| && ts[i].cookie == ts[j].cookie && FindCookie(base, ts[i].cookie).Some?
        ensures ts[i].id == base[FindCookie(base, ts[i].cookie).value].id
      {
        if i > 0 {
          assert ts[1..][i - 1] == ts[i] && ts[1..][j - 1] == ts[j];
        }
      }
    }
  }

  lemma AssignKeepsIds(base: seq<Mapping>, tb: Table, src: U16, ts: seq<Tuple>)
    requires ts != [] && SameIds(base, tb.slots, ts) && !StaleHead(base, ts)
    requires ApplyOne(Reassign, tb, src, ts[0]).Done?
    ensures SameIds(base, ApplyOne(Reassign, tb, src, ts[0]).table.slots, ts[1..])
  {
    var next := ApplyOne(Reassign, tb, src, ts[0]).table;
    var k0 := FindCookie(tb.slots, ts[0].cookie).value;
    forall i | 0 <= i < |ts[1..]|
      ensures FindCookie(base, ts[1..][i].cookie) == FindCookie(next.slots, ts[1..][i].cookie)
      ensures FindCookie(base, ts[1..][i].cookie).Some? ==>
                base[FindCookie(base, ts[1..][i].cookie).value].id ==
                next.slots[FindCookie(base, ts[1..][i].cookie).value].id
    {
      assert ts[1..][i] == ts[i + 1];
      LookupKept(tb.slots, k0, next.slots[k0], ts[i + 1].cookie);
      assert FindCookie(tb.slots, ts[i + 1].cookie) == Some(k0) ==> ts[i + 1].cookie == ts[0].cookie;
    }
  }

  lemma {:induction false} AssignInOrder(base: seq<Mapping>, tb: Table, src: U16, ts: seq<Tuple>)
    requires Settled(base, ts) && SameIds(base, tb.slots, ts)
    ensures AssignCheck(base, tb.bits, ts).Some? ==> AllFound(tb.slots, ts)
    ensures ApplyAll(Reassign, tb, src, ts) ==
            if AssignCheck(base, tb.bits, ts).Some?
            then Done(Table(AssignApply(tb.slots, ts), AssignCheck(base, tb.bits, ts).value))
            else Refused(InvalidParameters)
    decreases |ts|
  {
    if AssignCheck(base, tb.bits, ts).Some? {
      CheckedAreFound(base, tb.bits, ts);
    }
    if ts != [] && FindCookie(base, ts[0].cookie).Some? && ApplyOne(Reassign, tb, src, ts[0]).Done? {
      SettledTail(base, ts);
      AssignKeepsIds(base, tb, src, ts);
      AssignInOrder(base, ApplyOne(Reassign, tb, src, ts[0]).table, src, ts[1..]);
    }
  }

  // Unassign needs no distinct cookies: its lookups never move.
  lemma {:induction false} UnassignInOrder(tb: Table, src: U16, ts: seq<Tuple>)
    ensures ApplyAll(Clear, tb, src, ts) ==
            if AllFound(tb.slots, ts) then Done(UnassignApply(tb, ts)) else Refused(InvalidParameters)
    decreases |ts|
  {
    if ts != [] && FindCookie(tb.slots, ts[0].cookie).Some? {
      var next := ApplyOne(Clear, tb, src, ts[0]).table;
      var k := FindCookie(tb.slots, ts[0].cookie).value;
      UnassignInOrder(next, src, ts[1..]);
      forall i | 0 <= i < |ts|
        ensures FindCookie(next.slots, ts[i].cookie) == FindCookie(tb.slots, ts[i].cookie)
      {
        LookupKept(tb.slots, k, next.slots[k], ts[i].cookie);
      }
      if AllFound(tb.slots, ts) {
        assert forall i | 0 <= i < |ts[1..]| :: ts[1..][i] == ts[i + 1];
        assert AllFound(next.slots, ts[1..]);
      } else {
        var i :| 0 <= i < |ts| && FindCookie(tb.slots, ts[i].cookie).None?;
        assert ts[1..][i - 1] == ts[i];
      }
    }
  }

  /**
   * What lets a batch run in order: no cookie twice, or for Assign a settled
   * request. Unassign needs nothing. Requests without repeated cookies qualify.
   */
  predicate Orderly(kind: Kind, slots: seq<Mapping>, ts: seq<Tuple>) {
    match kind
    case Register => DistinctCookies(ts)
    case Unregister => DistinctCookies(ts)
    case Reassign => Settled(slots, ts)
    case Clear => true
  }

  /** An orderly batch is its tuples run in order. */
  lemma BatchInOrder(kind: Kind, tb: Table, src: U16, ts: seq<Tuple>)
    requires Orderly(kind, tb.slots, ts)
    ensures Batch(kind, tb, src, ts) == ApplyAll(kind, tb, src, ts)
  {
    match kind
    case Register => RegisterInOrder(tb.slots, tb, src, ts);
    case Unregister => UnregisterInOrder(tb.slots, tb, src, ts);
    case Reassign => AssignInOrder(tb.slots, tb, src, ts);
    case Clear => UnassignInOrder(tb, src, ts);
  }

  // --- The same, at the level of whole requests -------------------------------

  /** The request that carries only the tuple `t`. */
  function Single(req: Request, t: Tuple): (r: Request)
    ensures Tuples(r) == [t]
  {
    req.(count := 1, notifications := [t])
  }

  /** One-tuple requests in order, up to the first that is not answered Ok. */
  function InOrder(s: State, msg: Message, req: Request, ts: seq<Tuple>): (State, ErrorCode)
    decreases |ts|
  {
    if ts == [] then (s, Ok)
    else
      var (next, code) := Handle(s, msg, Single(req, ts[0]));
      if code != Ok then (next, code) else InOrder(next, msg, req, ts[1..])
  }

  /** The entries a request works on: a register request may open one. */
  function Opened(s: State, msg: Message, req: Request): State {
    if KindOf(msg) == Register && 1 <= req.count <= MAX_TUPLES && FindOrCreate(s.entries, req.receiverUuid).Some?
    then State(FindOrCreate(s.entries, req.receiverUuid).value.1, s.bits)
    else s
  }

  lemma EntryUnmoved(entries: seq<Entry>, e: nat, slots: seq<Mapping>, uuid: Uuid)
    requires e < |entries|
    ensures FindEntry(entries[e := entries[e].(mappings := slots)], uuid) == FindEntry(entries, uuid)
  {
    var after := entries[e := entries[e].(mappings := slots)];
    assert forall j | 0 <= j < |entries| :: Serves(entries[j], uuid) <==> Serves(after[j], uuid);
  }

  lemma OpenedIsFound(s: State, msg: Message, req: Request)
    requires KindOf(msg) == Register && 1 <= req.count <= MAX_TUPLES
    requires FindOrCreate(s.entries, req.receiverUuid).Some?
    ensures FindEntry(Opened(s, msg, req).entries, req.receiverUuid) ==
            Some(FindOrCreate(s.entries, req.receiverUuid).value.0)
  {
    var (e, entries) := FindOrCreate(s.entries, req.receiverUuid).value;
    if FindEntry(s.entries, req.receiverUuid).None? {
      assert forall j | 0 <= j < e :: entries[j] == s.entries[j];
    }
  }

  // Any request is a commit on the entry found after opening, or a refusal that changes nothing.
  lemma HandleIsCommit(s: State, msg: Message, req: Request)
    ensures var ready := Opened(s, msg, req);
            var found := FindEntry(ready.entries, req.receiverUuid);
            || Handle(s, msg, req) in {(s, InvalidParameters), (s, NoMemory)}
            || (found.Some? && Handle(s, msg, req) == Commit(ready, found.value, KindOf(msg), req.srcId, Tuples(req)))
  {
    if KindOf(msg) == Register && 1 <= req.count <= MAX_TUPLES && FindOrCreate(s.entries, req.receiverUuid).Some? {
      OpenedIsFound(s, msg, req);
    }
  }

  lemma OneTuple(kind: Kind, tb: Table, src: U16, t: Tuple)
    ensures ApplyAll(kind, tb, src, [t]) == ApplyOne(kind, tb, src, t)
  {
    assert [t][1..] == [];
  }

  lemma {:induction false} InOrderOnEntry(s: State, e: nat, msg: Message, req: Request, ts: seq<Tuple>)
    requires FindEntry(s.entries, req.receiverUuid) == Some(e)
    ensures e < |s.entries|
    ensures var run := ApplyAll(KindOf(msg), Table(s.entries[e].mappings, s.bits), req.srcId, ts);
            var (next, code) := InOrder(s, msg, req, ts);
            if run.Done?
            then code == Ok && next == State(s.entries[e := s.entries[e].(mappings := run.table.slots)], run.table.bits)
            else code == run.code
    decreases |ts|
  {
    var kind, tb := KindOf(msg), Table(s.entries[e].mappings, s.bits);
    if ts == [] {
      assert s.entries[e := s.entries[e].(mappings := tb.slots)] == s.entries;
    } else {
      BatchInOrder(kind, tb, req.srcId, [ts[0]]);
      OneTuple(kind, tb, req.srcId, ts[0]);
      assert [ts[0]][1..] == [];
      var one := ApplyOne(kind, tb, req.srcId, ts[0]);
      if one.Done? {
        var next := State(s.entries[e := s.entries[e].(mappings := one.table.slots)], one.table.bits);
        EntryUnmoved(s.entries, e, one.table.slots, req.receiverUuid);
        InOrderOnEntry(next, e, msg, req, ts[1..]);
      }
    }
  }

  /** Orderly on the receiver's slots, if it has any. */
  predicate OrderlyRequest(s: State, msg: Message, req: Request) {
    var found := FindEntry(s.entries, req.receiverUuid);
    Orderly(KindOf(msg), if found.Some? then s.entries[found.value].mappings else [], Tuples(req))
  }

  lemma CommitIsSequence(s: State, e: nat, msg: Message, req: Request)
    requires FindEntry(s.entries, req.receiverUuid) == Some(e)
    requires Orderly(KindOf(msg), s.entries[e].mappings, Tuples(req))
    ensures var (batch, code) := Commit(s, e, KindOf(msg), req.srcId, Tuples(req));
            var (step, first) := InOrder(s, msg, req, Tuples(req));
            && code == first
            && (code == Ok ==> batch == step)
            && (code != Ok ==> batch == s)
  {
    BatchInOrder(KindOf(msg), Table(s.entries[e].mappings, s.bits), req.srcId, Tuples(req));
    InOrderOnEntry(s, e, msg, req, Tuples(req));
  }

  // The first one-tuple request opens the entry that the batch would open.
  lemma OpeningTwice(s: State, msg: Message, req: Request, ts: seq<Tuple>)
    requires KindOf(msg) == Register && 1 <= req.count <= MAX_TUPLES && ts != []
    requires FindOrCreate(s.entries, req.receiverUuid).Some?
    ensures InOrder(s, msg, req, ts) == InOrder(Opened(s, msg, req), msg, req, ts)
  {
    OpenedIsFound(s, msg, req);
    var ready := Opened(s, msg, req);
    assert FindOrCreate(ready.entries, req.receiverUuid).value.1 == ready.entries;
    assert Handle(s, msg, Single(req, ts[0])) == Handle(ready, msg, Single(req, ts[0]));
  }

  /**
   * An orderly request succeeds exactly when its tuples, sent one per request in
   * order, all succeed, and then ends in the same state. When it does not, it
   * answers what the first failing tuple answers, and keeps at most the entry it
   * opened.
   */
  lemma BatchIsSequence(s: State, msg: Message, req: Request)
    requires OrderlyRequest(s, msg, req) && Tuples(req) != []
    requires KindOf(msg) == Register ==> 1 <= req.count <= MAX_TUPLES
    ensures var (batch, code) := Handle(s, msg, req);
            var (step, first) := InOrder(s, msg, req, Tuples(req));
            && code == first
            && (code == Ok ==> batch == step)
            && (code != Ok ==> batch == Opened(s, msg, req))
  {
    var ts := Tuples(req);
    var ready := Opened(s, msg, req);
    if KindOf(msg) == Register {
      if FindOrCreate(s.entries, req.receiverUuid).Some? {
        OpenedIsFound(s, msg, req);
        OpeningTwice(s, msg, req, ts);
        CommitIsSequence(ready, FindEntry(ready.entries, req.receiverUuid).value, msg, req);
      }
    } else if FindEntry(s.entries, req.receiverUuid).Some? {
      CommitIsSequence(s, FindEntry(s.entries, req.receiverUuid).value, msg, req);
    }
  }

  // A register batch run in order claims cookies that were free, and each only once.
  lemma {:induction false} AppliedAreDistinct(tb: Table, src: U16, ts: seq<Tuple>)
    requires ApplyAll(Register, tb, src, ts).Done?
    ensures DistinctCookies(ts)
    ensures forall i | 0 <= i < |ts| :: FindCookie(tb.slots, ts[i].cookie).None?
    decreases |ts|
  {
    if ts != [] {
      var next := ApplyOne(Register, tb, src, ts[0]).table;
      var k := FindFree(tb.slots).value;
      var rest := ts[1..];
      AppliedAreDistinct(next, src, rest);
      assert forall i | 1 <= i < |ts| :: ts[i] == rest[i - 1];
      assert Matches(next.slots[k], ts[0].cookie);
      forall i | 1 <= i < |ts|
        ensures ts[i].cookie != ts[0].cookie && FindCookie(tb.slots, ts[i].cookie).None?
      {
        assert FindCookie(next.slots, rest[i - 1].cookie).None?;
        assert forall j | 0 <= j < |tb.slots| && j != k :: next.slots[j] == tb.slots[j];
      }
    }
  }

  lemma CommitOk(s: State, e: nat, kind: Kind, src: U16, ts: seq<Tuple>)
    requires e < |s.entries|
    ensures Commit(s, e, kind, src, ts).1 == Ok <==> Batch(kind, Table(s.entries[e].mappings, s.bits), src, ts).Done?
  {
    match Batch(kind, Table(s.entries[e].mappings, s.bits), src, ts)
    case Refused(code) => assert code != Ok;
    case Done(_) =>
  }

  // A batch that succeeds is its one-tuple requests exactly when it runs in order on its table.
  lemma SequenceIff(s: State, e: nat, msg: Message, req: Request)
    requires FindEntry(s.entries, req.receiverUuid) == Some(e)
    requires Commit(s, e, KindOf(msg), req.srcId, Tuples(req)).1 == Ok
    ensures e < |s.entries|
    ensures var kind, src, ts := KindOf(msg), req.srcId, Tuples(req);
            var tb := Table(s.entries[e].mappings, s.bits);
            && Batch(kind, tb, src, ts).Done?
            && (InOrder(s, msg, req, ts) == Commit(s, e, kind, src, ts) <==>
                ApplyAll(kind, tb, src, ts) == Batch(kind, tb, src, ts))
  {
    var kind, src, ts := KindOf(msg), req.srcId, Tuples(req);
    var tb := Table(s.entries[e].mappings, s.bits);
    CommitOk(s, e, kind, src, ts);
    InOrderOnEntry(s, e, msg, req, ts);
    var batch, run := Batch(kind, tb, src, ts), ApplyAll(kind, tb, src, ts);
    if run.Done? {
      assert Commit(s, e, kind, src, ts).0.entries[e].mappings == batch.table.slots;
      assert InOrder(s, msg, req, ts).0.entries[e].mappings == run.table.slots;
    }
  }

  /** A Setup or Add that succeeds equals its one-tuple requests exactly when it repeats no cookie. */
  lemma RegisterSequenceIff(s: State, msg: Message, req: Request)
    requires KindOf(msg) == Register && Handle(s, msg, req).1 == Ok && Tuples(req) != []
    ensures InOrder(s, msg, req, Tuples(req)) == Handle(s, msg, req) <==> DistinctCookies(Tuples(req))
  {
    OpenedIsFound(s, msg, req);
    OpeningTwice(s, msg, req, Tuples(req));
    var ready := Opened(s, msg, req);
    var e := FindEntry(ready.entries, req.receiverUuid).value;
    var tb := Table(ready.entries[e].mappings, s.bits);
    SequenceIff(ready, e, msg, req);
    if DistinctCookies(Tuples(req)) {
      BatchInOrder(Register, tb, req.srcId, Tuples(req));
    }
    if ApplyAll(Register, tb, req.srcId, Tuples(req)).Done? {
      AppliedAreDistinct(tb, req.srcId, Tuples(req));
    }
  }

  // --- Releases ------------------------------------------------------------------

  // The slots in use.
  function Live(slots: seq<Mapping>): set<nat> {
    set k: nat | k < |slots| && slots[k].inUse
  }

  lemma LiveReleased(tb: Table, k: nat, src: U16, t: Tuple)
    requires k < |tb.slots| && Release(tb, k, src, t).Done?
    ensures Live(Release(tb, k, src, t).table.slots) == Live(tb.slots) - {k}
    ensures |Live(tb.slots)| == |Live(tb.slots) - {k}| + if tb.slots[k].inUse then 1 else 0
  {
    if tb.slots[k].inUse {
      assert Live(tb.slots) == (Live(tb.slots) - {k}) + {k};
    } else {
      assert Live(tb.slots) == Live(tb.slots) - {k};
    }
  }

  // Run in order, every release empties another slot.
  lemma {:induction false} ReleasedInOrder(tb: Table, src: U16, ts: seq<Tuple>)
    requires ApplyAll(Unregister, tb, src, ts).Done?
    ensures |Live(tb.slots)| == |Live(ApplyAll(Unregister, tb, src, ts).table.slots)| + |ts|
    decreases |ts|
  {
    if ts != [] {
      LiveReleased(tb, FindCookie(tb.slots, ts[0].cookie).value, src, ts[0]);
      ReleasedInOrder(ApplyOne(Unregister, tb, src, ts[0]).table, src, ts[1..]);
    }
  }

  // The loop empties no more slots than it has tuples, and fewer when it finds one empty.
  lemma {:induction false} ReleasedAtMost(base: seq<Mapping>, tb: Table, src: U16, ts: seq<Tuple>)
    requires |base| == |tb.slots| && UnregisterLoop(base, tb, src, ts).Done?
    ensures |Live(tb.slots)| <= |Live(UnregisterLoop(base, tb, src, ts).table.slots)| + |ts|
    ensures (exists i, k | 0 <= i < |ts| && 0 <= k < |base| ::
               FindCookie(base, ts[i].cookie) == Some(k) && !tb.slots[k].inUse) ==>
              |Live(tb.slots)| < |Live(UnregisterLoop(base, tb, src, ts).table.slots)| + |ts|
    decreases |ts|
  {
    if ts != [] {
      var k0 := FindCookie(base, ts[0].cookie).value;
      var next := Release(tb, k0, src, ts[0]).table;
      LiveReleased(tb, k0, src, ts[0]);
      ReleasedAtMost(base, next, src, ts[1..]);
      if i, k :| 0 <= i < |ts| && 0 <= k < |base| && FindCookie(base, ts[i].cookie) == Some(k) && !tb.slots[k].inUse {
        if i > 0 {
          assert ts[1..][i - 1] == ts[i] && !next.slots[k].inUse;
        }
      }
    }
  }

  // A cookie named twice finds its slot empty the second time.
  lemma {:induction false} ReleasedTwice(base: seq<Mapping>, tb: Table, src: U16, ts: seq<Tuple>, i: nat, j: nat)
    requires |base| == |tb.slots| && UnregisterLoop(base, tb, src, ts).Done?
    requires i < j < |ts| && ts[i].cookie == ts[j].cookie
    ensures |Live(tb.slots)| < |Live(UnregisterLoop(base, tb, src, ts).table.slots)| + |ts|
    decreases |ts|
  {
    var k0 := FindCookie(base, ts[0].cookie).value;
    var next := Release(tb, k0, src, ts[0]).table;
    var rest := ts[1..];
    LiveReleased(tb, k0, src, ts[0]);
    if i == 0 {
      assert rest[j - 1] == ts[j];
      assert FindCookie(base, rest[j - 1].cookie) == Some(k0) && !next.slots[k0].inUse;
      ReleasedAtMost(base, next, src, rest);
    } else {
      ReleasedTwice(base, next, src, rest, i - 1, j - 1);
    }
  }

  lemma ReleasesDiffer(tb: Table, src: U16, ts: seq<Tuple>)
    requires !DistinctCookies(ts)
    requires UnregisterLoop(tb.slots, tb, src, ts).Done? && ApplyAll(Unregister, tb, src, ts).Done?
    ensures UnregisterLoop(tb.slots, tb, src, ts).table.slots != ApplyAll(Unregister, tb, src, ts).table.slots
  {
    var i, j :| 0 <= i < j < |ts| && ts[i].cookie == ts[j].cookie;
    ReleasedTwice(tb.slots, tb, src, ts, i, j);
    ReleasedInOrder(tb, src, ts);
  }

  /** A release that succeeds equals its one-tuple requests exactly when it repeats no cookie. */
  lemma ReleaseSequenceIff(s: State, msg: Message, req: Request)
    requires KindOf(msg) == Unregister && Handle(s, msg, req).1 == Ok
    ensures InOrder(s, msg, req, Tuples(req)) == Handle(s, msg, req) <==> DistinctCookies(Tuples(req))
  {
    var e := FindEntry(s.entries, req.receiverUuid).value;
    var tb := Table(s.entries[e].mappings, s.bits);
    SequenceIff(s, e, msg, req);
    if DistinctCookies(Tuples(req)) {
      BatchInOrder(Unregister, tb, req.srcId, Tuples(req));
    } else if ApplyAll(Unregister, tb, req.srcId, Tuples(req)).Done? {
      ReleasesDiffer(tb, req.srcId, Tuples(req));
    }
  }
}
