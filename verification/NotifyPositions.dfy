/**
 * What a request does, tuple by tuple, from the message number and the tuples it
 * counts alone: where each of them ends up, and that nothing else moves. Tuples
 * past the count play no part.
 */
module NotifyPositions {
  import opened Outcomes
  import opened NotifySpec
  import opened NotifyBatch
  import opened NotifyEntries
  import opened NotifyAssign

  lemma SameTuples(req: Request, other: Request)
    requires req.count == other.count && req.count <= |req.notifications| && req.count <= |other.notifications|
    requires other.notifications[..req.count] == req.notifications[..req.count]
    ensures Tuples(other) == Tuples(req)
  {
  }

  /** The tuples past the count of a request play no part. */
  lemma PaddingIgnored(s: State, req: Request, padding: seq<Tuple>)
    requires req.count <= |req.notifications|
    ensures Step(s, req.(notifications := req.notifications[..req.count] + padding)) == Step(s, req)
  {
    var other := req.(notifications := req.notifications[..req.count] + padding);
    assert other.notifications[..req.count] == req.notifications[..req.count];
    SameTuples(req, other);
  }

  lemma TuplesAre(req: Request)
    requires req.count <= |req.notifications|
    ensures |Tuples(req)| == req.count
    ensures forall i | 0 <= i < req.count :: Tuples(req)[i] == req.notifications[i]
  {
  }

  /** Message numbers 6 and 7 are not answered, and change nothing. */
  lemma UnknownMessage(s: State, req: Request)
    requires req.msgInfo % 8 in {6, 7}
    ensures Step(s, req) == (s, None)
  {
  }

  // The mapping that registering a tuple makes.
  function Made(src: U16, t: Tuple): Mapping {
    Mapping(t.cookie, t.id, t.ntype, src, true)
  }

  /** All entries but `e` are as they were. */
  predicate OthersKept(s: State, next: State, e: nat) {
    && |next.entries| == |s.entries| && e < |s.entries|
    && forall j | 0 <= j < |s.entries| && j != e :: next.entries[j] == s.entries[j]
  }

  // --- Setup and Add ------------------------------------------------------------------------

  lemma {:induction false} MadeIn(base: seq<Mapping>, tb: Table, src: U16, ts: seq<Tuple>, i: nat) returns (k: nat)
    requires RegisterLoop(base, tb, src, ts).Done? && i < |ts|
    ensures var slots := RegisterLoop(base, tb, src, ts).table.slots;
            |slots| == |tb.slots| && k < |slots| && !tb.slots[k].inUse && slots[k] == Made(src, ts[i])
    decreases |ts|
  {
    var next := Claim(tb, src, ts[0]).table;
    if i == 0 {
      k := FindFree(tb.slots).value;
      RegisterKeepsSlot(base, next, src, ts[1..], k);
    } else {
      k := MadeIn(base, next, src, ts[1..], i - 1);
    }
  }

  lemma LiveClaimed(tb: Table, src: U16, t: Tuple)
    requires Claim(tb, src, t).Done?
    ensures |Live(Claim(tb, src, t).table.slots)| == |Live(tb.slots)| + 1
  {
    var k := FindFree(tb.slots).value;
    assert Live(Claim(tb, src, t).table.slots) == Live(tb.slots) + {k};
  }

  // Some tuple asks for id `x`.
  predicate AsksFor(ts: seq<Tuple>, x: nat) {
    exists i | 0 <= i < |ts| :: ts[i].id == x
  }

  // The loop fills one slot and sets one bit for each tuple, and keeps the rest.
  lemma {:induction false} RegisterFills(base: seq<Mapping>, tb: Table, src: U16, ts: seq<Tuple>)
    requires RegisterLoop(base, tb, src, ts).Done?
    ensures var after := RegisterLoop(base, tb, src, ts).table;
            && |after.slots| == |tb.slots| && |Live(after.slots)| == |Live(tb.slots)| + |ts|
            && (forall k | 0 <= k < |tb.slots| && tb.slots[k].inUse :: after.slots[k] == tb.slots[k])
            && (forall x: nat :: x in after.bits <==> x in tb.bits || AsksFor(ts, x))
    decreases |ts|
  {
    if ts != [] {
      var next := Claim(tb, src, ts[0]).table;
      var rest := ts[1..];
      LiveClaimed(tb, src, ts[0]);
      RegisterFills(base, next, src, rest);
      assert forall i | 0 <= i < |rest| :: rest[i] == ts[i + 1];
      forall x: nat
        ensures AsksFor(ts, x) <==> ts[0].id == x || AsksFor(rest, x)
      {
        if i :| 0 <= i < |rest| && rest[i].id == x {
          assert ts[i + 1].id == x;
        }
        if i :| 0 <= i < |ts| && ts[i].id == x {
          assert i > 0 ==> rest[i - 1].id == x;
        }
      }
    }
  }

  /** The slots a registration starts from: the receiver's, or fresh ones. */
  function SlotsFrom(entry: Entry, uuid: Uuid): seq<Mapping> {
    if Serves(entry, uuid) then entry.mappings else FreeSlots()
  }

  /**
   * Messages 0 and 2, answered Ok: the receiver's entry holds one more mapping for
   * every tuple counted, made as that tuple says, and its bit is set. Whatever was
   * in use is as it was.
   */
  lemma RegisterPositions(s: State, req: Request) returns (e: nat)
    requires req.msgInfo % 8 in {0, 2} && req.count <= |req.notifications| && Step(s, req).1 == Some(Ok)
    ensures 1 <= req.count <= 7
    ensures OthersKept(s, Step(s, req).0, e)
    ensures Serves(s.entries[e], req.receiverUuid) || !s.entries[e].inUse
    ensures var next := Step(s, req).0;
            var before, after := SlotsFrom(s.entries[e], req.receiverUuid), next.entries[e].mappings;
            && next.entries[e] == Entry(req.receiverUuid, true, after)
            && |after| == |before| && |Live(after)| == |Live(before)| + req.count
            && (forall k | 0 <= k < |before| && before[k].inUse :: after[k] == before[k])
            && (forall i | 0 <= i < req.count ::
                  exists k | 0 <= k < |after| :: !before[k].inUse && after[k] == Made(req.srcId, req.notifications[i]))
            && (forall x: nat :: x in next.bits <==> x in s.bits || AsksFor(req.notifications[..req.count], x))
  {
    var ts := Tuples(req);
    TuplesAre(req);
    OpenedIsFound(s, Setup, req);
    var ready := Opened(s, Setup, req);
    e := FindEntry(ready.entries, req.receiverUuid).value;
    var tb := Table(ready.entries[e].mappings, s.bits);
    CommitOk(ready, e, Register, req.srcId, ts);
    RegisterFills(tb.slots, tb, req.srcId, ts);
    assert ts == req.notifications[..req.count];
    forall i | 0 <= i < req.count
      ensures exists k | 0 <= k < |tb.slots| ::
                !tb.slots[k].inUse &&
                RegisterLoop(tb.slots, tb, req.srcId, ts).table.slots[k] == Made(req.srcId, req.notifications[i])
    {
      var k := MadeIn(tb.slots, tb, req.srcId, ts, i);
    }
  }

  // --- Destroy and Remove -------------------------------------------------------------------

  // No earlier tuple names the cookie of tuple `i`.
  predicate First(ts: seq<Tuple>, i: nat)
    requires i < |ts|
  {
    forall j | 0 <= j < i :: ts[j].cookie != ts[i].cookie
  }

  lemma {:induction false} UnregisterFrees(base: seq<Mapping>, tb: Table, src: U16, ts: seq<Tuple>, k: nat)
    requires |base| == |tb.slots| && UnregisterLoop(base, tb, src, ts).Done? && k < |base|
    ensures var after := UnregisterLoop(base, tb, src, ts).table.slots;
            && |after| == |base|
            && (forall i | 0 <= i < |ts| && Touches(base, ts[i], k) :: after[k] == FREE)
            && ((forall i | 0 <= i < |ts| :: !Touches(base, ts[i], k)) ==> after[k] == tb.slots[k])
    decreases |ts|
  {
    if ts != [] {
      var k0 := FindCookie(base, ts[0].cookie).value;
      var next := Release(tb, k0, src, ts[0]).table;
      var rest := ts[1..];
      UnregisterFrees(base, next, src, rest, k);
      assert forall i | 0 <= i < |rest| :: rest[i] == ts[i + 1];
      assert forall i | 1 <= i < |ts| :: ts[i] == rest[i - 1];
      if forall i | 0 <= i < |rest| :: !Touches(base, rest[i], k) {
        assert UnregisterLoop(base, next, src, rest).table.slots[k] == next.slots[k];
      }
    }
  }

  lemma {:induction false} UnregisterSize(base: seq<Mapping>, tb: Table, src: U16, ts: seq<Tuple>)
    requires |base| == |tb.slots| && UnregisterLoop(base, tb, src, ts).Done?
    ensures |UnregisterLoop(base, tb, src, ts).table.slots| == |tb.slots|
    decreases |ts|
  {
    if ts != [] {
      UnregisterSize(base, Release(tb, FindCookie(base, ts[0].cookie).value, src, ts[0]).table, src, ts[1..]);
    }
  }

  // Each tuple found the mapping it names, and that mapping as it says.
  lemma {:induction false} UnregisterFound(base: seq<Mapping>, tb: Table, src: U16, ts: seq<Tuple>, i: nat)
    requires |base| == |tb.slots| && UnregisterLoop(base, tb, src, ts).Done? && i < |ts|
    ensures FindCookie(base, ts[i].cookie).Some?
    ensures First(ts, i) ==>
              var m := tb.slots[FindCookie(base, ts[i].cookie).value];
              m.id == ts[i].id && m.ntype == ts[i].ntype && m.srcId == src
    decreases |ts|
  {
    if i > 0 {
      var k0 := FindCookie(base, ts[0].cookie).value;
      var rest := ts[1..];
      UnregisterFound(base, Release(tb, k0, src, ts[0]).table, src, rest, i - 1);
      assert forall j | 0 <= j < |rest| :: rest[j] == ts[j + 1];
      if First(ts, i) {
        assert First(rest, i - 1);
        assert base[FindCookie(base, ts[i].cookie).value].cookie == ts[i].cookie;
        assert base[k0].cookie == ts[0].cookie;
      }
    }
  }

  lemma {:induction false} UnregisterClears(base: seq<Mapping>, tb: Table, src: U16, ts: seq<Tuple>, x: nat)
    requires |base| == |tb.slots| && UnregisterLoop(base, tb, src, ts).Done?
    ensures x in UnregisterLoop(base, tb, src, ts).table.bits <==>
            x in tb.bits && !AsksFor(ts, x)
    decreases |ts|
  {
    if ts != [] {
      var k0 := FindCookie(base, ts[0].cookie).value;
      UnregisterClears(base, Release(tb, k0, src, ts[0]).table, src, ts[1..], x);
      assert forall i | 1 <= i < |ts| :: ts[i] == ts[1..][i - 1];
      assert forall i | 0 <= i < |ts[1..]| :: ts[1..][i] == ts[i + 1];
    }
  }

  /** No tuple names the mapping in slot `k`, the first in use with its cookie. */
  predicate Spared(slots: seq<Mapping>, ts: seq<Tuple>, k: nat) {
    forall i | 0 <= i < |ts| :: !Touches(slots, ts[i], k)
  }

  // What a request of `ts` leaves of slots it does not name; every tuple names one.
  ghost predicate Elsewhere(before: seq<Mapping>, ts: seq<Tuple>, after: seq<Mapping>) {
    && |after| == |before|
    && (forall k | 0 <= k < |before| && Spared(before, ts, k) :: after[k] == before[k])
    && AllFound(before, ts)
  }

  /** The receiver is known, and only its slots and the bitmap have changed. */
  predicate OnReceiver(s: State, next: State, e: nat, req: Request) {
    && FindEntry(s.entries, req.receiverUuid) == Some(e) && OthersKept(s, next, e)
    && next.entries[e] == s.entries[e].(mappings := next.entries[e].mappings)
  }

  lemma CommittedOnReceiver(s: State, msg: Message, req: Request)
    requires KindOf(msg) != Register && Handle(s, msg, req).1 == Ok
    ensures FindEntry(s.entries, req.receiverUuid).Some?
    ensures var e := FindEntry(s.entries, req.receiverUuid).value;
            var batch := Batch(KindOf(msg), Table(s.entries[e].mappings, s.bits), req.srcId, Tuples(req));
            var next := Handle(s, msg, req).0;
            && OnReceiver(s, next, e, req) && batch.Done?
            && next.entries[e].mappings == batch.table.slots && next.bits == batch.table.bits
  {
    var e := FindEntry(s.entries, req.receiverUuid).value;
    CommitOk(s, e, KindOf(msg), req.srcId, Tuples(req));
  }

  // Every slot named is free, and was as its first tuple says.
  ghost predicate Freed(before: seq<Mapping>, src: U16, ts: seq<Tuple>, after: seq<Mapping>)
    requires |after| == |before|
  {
    forall i, k | 0 <= i < |ts| && 0 <= k < |before| && Touches(before, ts[i], k) ::
      after[k] == Mapping(0, 0, Global, 0, false) && (First(ts, i) ==> before[k] == Made(src, ts[i]))
  }

  /** Every slot named is free, and was as its first tuple says; the bits of the tuples are clear. */
  ghost predicate Released(before: Table, src: U16, ts: seq<Tuple>, after: Table) {
    && Elsewhere(before.slots, ts, after.slots)
    && Freed(before.slots, src, ts, after.slots)
    && (forall x: nat :: x in after.bits <==> x in before.bits && !AsksFor(ts, x))
  }

  lemma UnregisterElsewhere(tb: Table, src: U16, ts: seq<Tuple>)
    requires UnregisterLoop(tb.slots, tb, src, ts).Done?
    ensures Elsewhere(tb.slots, ts, UnregisterLoop(tb.slots, tb, src, ts).table.slots)
  {
    UnregisterSize(tb.slots, tb, src, ts);
    forall k | 0 <= k < |tb.slots| && Spared(tb.slots, ts, k)
      ensures UnregisterLoop(tb.slots, tb, src, ts).table.slots[k] == tb.slots[k]
    {
      UnregisterFrees(tb.slots, tb, src, ts, k);
    }
    forall i | 0 <= i < |ts|
      ensures FindCookie(tb.slots, ts[i].cookie).Some?
    {
      UnregisterFound(tb.slots, tb, src, ts, i);
    }
  }

  lemma NamedSlot(tb: Table, src: U16, ts: seq<Tuple>, i: nat, k: nat)
    requires UnregisterLoop(tb.slots, tb, src, ts).Done?
    requires i < |ts| && k < |tb.slots| && Touches(tb.slots, ts[i], k)
    ensures |UnregisterLoop(tb.slots, tb, src, ts).table.slots| == |tb.slots|
    ensures UnregisterLoop(tb.slots, tb, src, ts).table.slots[k] == FREE
    ensures First(ts, i) ==> tb.slots[k] == Made(src, ts[i])
  {
    UnregisterFrees(tb.slots, tb, src, ts, k);
    UnregisterFound(tb.slots, tb, src, ts, i);
    assert Matches(tb.slots[k], ts[i].cookie);
  }

  lemma UnregisterFreed(tb: Table, src: U16, ts: seq<Tuple>)
    requires UnregisterLoop(tb.slots, tb, src, ts).Done?
    ensures |UnregisterLoop(tb.slots, tb, src, ts).table.slots| == |tb.slots|
    ensures Freed(tb.slots, src, ts, UnregisterLoop(tb.slots, tb, src, ts).table.slots)
  {
    UnregisterSize(tb.slots, tb, src, ts);
    forall i, k | 0 <= i < |ts| && 0 <= k < |tb.slots| && Touches(tb.slots, ts[i], k)
      ensures UnregisterLoop(tb.slots, tb, src, ts).table.slots[k] == FREE
      ensures First(ts, i) ==> tb.slots[k] == Made(src, ts[i])
    {
      NamedSlot(tb, src, ts, i, k);
    }
  }

  lemma UnregisterReleases(tb: Table, src: U16, ts: seq<Tuple>)
    requires UnregisterLoop(tb.slots, tb, src, ts).Done?
    ensures Released(tb, src, ts, UnregisterLoop(tb.slots, tb, src, ts).table)
  {
    UnregisterElsewhere(tb, src, ts);
    UnregisterFreed(tb, src, ts);
    forall x: nat
      ensures x in UnregisterLoop(tb.slots, tb, src, ts).table.bits <==> x in tb.bits && !AsksFor(ts, x)
    {
      UnregisterClears(tb.slots, tb, src, ts, x);
    }
  }

  /**
   * Messages 1 and 3, answered Ok: the mapping of every tuple counted, as that
   * tuple describes it and from the same source, is a free slot afterwards, and
   * its bit is clear. All other mappings are as they were.
   */
  lemma ReleasePositions(s: State, req: Request) returns (e: nat)
    requires req.msgInfo % 8 in {1, 3} && req.count <= |req.notifications| && Step(s, req).1 == Some(Ok)
    ensures OnReceiver(s, Step(s, req).0, e, req)
    ensures var next := Step(s, req).0;
            Released(Table(s.entries[e].mappings, s.bits), req.srcId, req.notifications[..req.count],
                     Table(next.entries[e].mappings, next.bits))
  {
    CommittedOnReceiver(s, MessageOf(req.msgInfo).value, req);
    e := FindEntry(s.entries, req.receiverUuid).value;
    UnregisterReleases(Table(s.entries[e].mappings, s.bits), req.srcId, req.notifications[..req.count]);
  }

  // --- Assign -------------------------------------------------------------------------------

  /** Every slot named has the id and type of the last tuple that names it. */
  ghost predicate Renamed(before: seq<Mapping>, ts: seq<Tuple>, after: seq<Mapping>) {
    && Elsewhere(before, ts, after)
    && (forall i, k | 0 <= i < |ts| && 0 <= k < |before| && Touches(before, ts[i], k) && Decides(ts, i) ::
          after[k] == before[k].(id := ts[i].id, ntype := ts[i].ntype))
  }

  lemma ApplyRenames(slots: seq<Mapping>, ts: seq<Tuple>)
    requires AllFound(slots, ts)
    ensures Renamed(slots, ts, AssignApply(slots, ts))
  {
    forall k | 0 <= k < |slots| && Spared(slots, ts, k)
      ensures AssignApply(slots, ts)[k] == slots[k]
    {
      SlotsAfter(slots, ts, k);
    }
    forall i, k | 0 <= i < |ts| && 0 <= k < |slots| && Touches(slots, ts[i], k) && Decides(ts, i)
      ensures AssignApply(slots, ts)[k] == slots[k].(id := ts[i].id, ntype := ts[i].ntype)
    {
      SlotsAfter(slots, ts, k);
    }
  }

  /**
   * Message 4, answered Ok: the mapping of every tuple counted has the id and type
   * of the last tuple that names it, and is as it was otherwise. All other
   * mappings are as they were.
   */
  lemma AssignPositions(s: State, req: Request) returns (e: nat)
    requires req.msgInfo % 8 == 4 && req.count <= |req.notifications| && Step(s, req).1 == Some(Ok)
    ensures OnReceiver(s, Step(s, req).0, e, req)
    ensures Renamed(s.entries[e].mappings, req.notifications[..req.count], Step(s, req).0.entries[e].mappings)
  {
    CommittedOnReceiver(s, Assign, req);
    e := FindEntry(s.entries, req.receiverUuid).value;
    CheckedAreFound(s.entries[e].mappings, s.bits, Tuples(req));
    ApplyRenames(s.entries[e].mappings, Tuples(req));
  }

  // --- Unassign -----------------------------------------------------------------------------

  // Whether a later tuple touches slot `k`, on either side of the first one's edit.
  lemma UnassignRest(slots: seq<Mapping>, before: seq<Mapping>, ts: seq<Tuple>, k: nat)
    requires ts != []
    requires forall i | 0 <= i < |ts[1..]| :: Touches(slots, ts[1..][i], k) == Touches(before, ts[i + 1], k)
    ensures (exists i | 1 <= i < |ts| :: Touches(before, ts[i], k)) <==>
            exists i | 0 <= i < |ts[1..]| :: Touches(slots, ts[1..][i], k)
  {
    if i :| 1 <= i < |ts| && Touches(before, ts[i], k) {
      assert Touches(slots, ts[1..][i - 1], k);
    }
    if i :| 0 <= i < |ts[1..]| && Touches(slots, ts[1..][i], k) {
      assert Touches(before, ts[i + 1], k);
    }
  }

  lemma {:induction false} UnassignOne(tb: Table, ts: seq<Tuple>, k: nat)
    requires AllFound(tb.slots, ts) && k < |tb.slots|
    ensures var after := UnassignApply(tb, ts).slots;
            && (forall i | 0 <= i < |ts| && Touches(tb.slots, ts[i], k) ::
                  after[k] == tb.slots[k].(id := 0, ntype := Global))
            && ((forall i | 0 <= i < |ts| :: !Touches(tb.slots, ts[i], k)) ==> after[k] == tb.slots[k])
    decreases |ts|
  {
    if ts != [] {
      var k0 := FindCookie(tb.slots, ts[0].cookie).value;
      var m := tb.slots[k0].(id := 0, ntype := Global);
      var slots, rest := tb.slots[k0 := m], ts[1..];
      AllFoundKept(tb.slots, k0, m, ts);
      UnassignOne(Table(slots, tb.bits - {tb.slots[k0].id}), rest, k);
      assert forall i | 0 <= i < |rest| :: rest[i] == ts[i + 1];
      assert forall i | 1 <= i < |ts| :: ts[i] == rest[i - 1];
      forall i | 0 <= i < |rest|
        ensures Touches(slots, rest[i], k) == Touches(tb.slots, ts[i + 1], k)
      {
        LookupKept(tb.slots, k0, m, ts[i + 1].cookie);
      }
      UnassignRest(slots, tb.slots, ts, k);
    }
  }

  lemma {:induction false} UnassignClears(tb: Table, ts: seq<Tuple>, x: nat)
    requires AllFound(tb.slots, ts) && x >= 1
    ensures x in UnassignApply(tb, ts).bits <==> x in tb.bits && forall i | 0 <= i < |ts| :: !Frees(tb.slots, ts[i], x)
    decreases |ts|
  {
    if ts != [] {
      var k0 := FindCookie(tb.slots, ts[0].cookie).value;
      var m := tb.slots[k0].(id := 0, ntype := Global);
      var slots, rest := tb.slots[k0 := m], ts[1..];
      AllFoundKept(tb.slots, k0, m, ts);
      UnassignClears(Table(slots, tb.bits - {tb.slots[k0].id}), rest, x);
      assert forall i | 1 <= i < |ts| :: ts[i] == rest[i - 1];
      forall i | 0 <= i < |rest|
        ensures Frees(slots, rest[i], x) <==> Frees(tb.slots, ts[i + 1], x) && !Touches(tb.slots, ts[i + 1], k0)
      {
        assert rest[i] == ts[i + 1];
        LookupKept(tb.slots, k0, m, ts[i + 1].cookie);
      }
    }
  }

  /** Every slot named has id 0 and the global type; the bits of the ids they had are clear. */
  ghost predicate Emptied(before: Table, ts: seq<Tuple>, after: Table) {
    && Elsewhere(before.slots, ts, after.slots)
    && (forall i, k | 0 <= i < |ts| && 0 <= k < |before.slots| && Touches(before.slots, ts[i], k) ::
          after.slots[k] == before.slots[k].(id := 0, ntype := Global))
    && (forall x: nat | x >= 1 ::
          x in after.bits <==> x in before.bits && forall i | 0 <= i < |ts| :: !Frees(before.slots, ts[i], x))
  }

  lemma ApplyEmpties(tb: Table, ts: seq<Tuple>)
    requires AllFound(tb.slots, ts)
    ensures Emptied(tb, ts, UnassignApply(tb, ts))
  {
    var after := UnassignApply(tb, ts);
    forall k | 0 <= k < |tb.slots| && Spared(tb.slots, ts, k)
      ensures after.slots[k] == tb.slots[k]
    {
      UnassignOne(tb, ts, k);
    }
    forall i, k | 0 <= i < |ts| && 0 <= k < |tb.slots| && Touches(tb.slots, ts[i], k)
      ensures after.slots[k] == tb.slots[k].(id := 0, ntype := Global)
    {
      UnassignOne(tb, ts, k);
    }
    forall x: nat | x >= 1
      ensures x in after.bits <==> x in tb.bits && forall i | 0 <= i < |ts| :: !Frees(tb.slots, ts[i], x)
    {
      UnassignClears(tb, ts, x);
    }
  }

  /**
   * Message 5, answered Ok: the mapping of every tuple counted keeps its cookie,
   * its source and its slot, and has id 0 and the global type, and the bit of the
   * id it had is clear. All other mappings are as they were.
   */
  lemma UnassignPositions(s: State, req: Request) returns (e: nat)
    requires req.msgInfo % 8 == 5 && req.count <= |req.notifications| && Step(s, req).1 == Some(Ok)
    ensures OnReceiver(s, Step(s, req).0, e, req)
    ensures var next := Step(s, req).0;
            Emptied(Table(s.entries[e].mappings, s.bits), req.notifications[..req.count],
                    Table(next.entries[e].mappings, next.bits))
  {
    CommittedOnReceiver(s, Unassign, req);
    e := FindEntry(s.entries, req.receiverUuid).value;
    ApplyEmpties(Table(s.entries[e].mappings, s.bits), Tuples(req));
  }
}
