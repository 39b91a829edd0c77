/**
 * Concrete requests on the wrong side of each condition: what goes wrong when an
 * id is 0 or a cookie is named twice.
 */
module NotifyWitnesses {
  import opened Outcomes
  import opened NotifySpec
  import opened NotifyBatch
  import opened NotifyExact
  import opened NotifyAbstract
  import opened NotifyAssign
  import opened NotifyConditions

  // One receiver (1) with one mapping: cookie 7, notification `id`, source `src`.
  function OneMapping(id: U16, src: U16): (s: State)
    requires id < ID_LIMIT
    ensures Shape(s)
  {
    State(Initial().entries[0 := Entry(1, true, FreeSlots()[0 := Mapping(7, id, Global, src, true)])],
          if id >= 1 then {id} else {})
  }

  lemma OneMappingExact(id: U16, src: U16)
    requires id < ID_LIMIT
    ensures Exact(OneMapping(id, src), 1)
    ensures FindEntry(OneMapping(id, src).entries, 1) == Some(0)
    ensures FindCookie(OneMapping(id, src).entries[0].mappings, 7) == Some(0)
  {
    var s := OneMapping(id, src);
    assert Serves(s.entries[0], 1);
    assert Matches(s.entries[0].mappings[0], 7);
    assert forall e, k, i: nat | Holds(s, e, k, i) :: e == 0 && k == 0 && i == id;
    assert Holds(s, 0, 0, id);
  }

  const SETUP: U64 := 2
  const DESTROY: U64 := 3
  const ASSIGN: U64 := 4

  // A request to receiver 1.
  function RequestOf(msgInfo: U64, src: U16, ts: seq<Tuple>): (r: Request)
    requires |ts| <= MAX_TUPLES
    ensures Tuples(r) == ts
  {
    Request(src, 0, 1, msgInfo, |ts|, ts)
  }

  // --- Assign ---------------------------------------------------------------------------

  lemma TwoRenames(base: seq<Mapping>)
    requires FindCookie(base, 7) == Some(0) && base[0].id == 1
    ensures AssignCheck(base, {1}, [Tuple(7, 5, Global), Tuple(7, 6, Global)]) == Some({5, 6})
  {
    var ts := [Tuple(7, 5, Global), Tuple(7, 6, Global)];
    assert ts[1..] == [Tuple(7, 6, Global)] && ts[1..][1..] == [];
    assert {1} - {1} + {5} == {5};
    assert {5} - {1} + {6} == {5, 6};
    assert AssignCheck(base, {5}, ts[1..]) == Some({5, 6});
  }

  /**
   * Renaming cookie 7 to 5 and then to 6 in one Assign leaves bit 5 set for
   * nobody, which the two renames one by one do not.
   */
  lemma RepeatedCookieLeaks()
    ensures var s := OneMapping(1, 9);
            var req := RequestOf(ASSIGN, 9, [Tuple(7, 5, Global), Tuple(7, 6, Global)]);
            var (next, code) := Handle(s, Assign, req);
            && Exact(s, 1) && code == Ok && next.bits == {5, 6} && !Exact(next, 1)
            && InOrder(s, Assign, req, Tuples(req)) != (next, code)
  {
    var s := OneMapping(1, 9);
    var ts := [Tuple(7, 5, Global), Tuple(7, 6, Global)];
    var req := RequestOf(ASSIGN, 9, ts);
    OneMappingExact(1, 9);
    TwoRenames(s.entries[0].mappings);
    assert Handle(s, Assign, req).1 == Ok;
    assert ts[0].cookie == ts[1].cookie && !Settled(s.entries[0].mappings, ts);
    AssignFromOneIff(s, req);
    AssignSequenceFromOneIff(s, req);
  }

  /** Assigning id 0 sets bit 0: the bitmap is no longer exact from 1. */
  lemma ZeroIdSetsBitZero()
    ensures var s := OneMapping(1, 9);
            var (next, code) := Handle(s, Assign, RequestOf(ASSIGN, 9, [Tuple(7, 0, Global)]));
            Exact(s, 1) && code == Ok && next.bits == {0} && !Exact(next, 1)
  {
    var s := OneMapping(1, 9);
    var ts := [Tuple(7, 0, Global)];
    OneMappingExact(1, 9);
    assert ts[1..] == [];
    assert {1} - {1} + {0} == {0};
    assert AssignCheck(s.entries[0].mappings, {1}, ts) == Some({0});
  }

  // --- Setup ----------------------------------------------------------------------------

  lemma FreshEntry()
    ensures FindOrCreate(Initial().entries, 1) ==
            Some((0, Initial().entries[0 := Entry(1, true, FreeSlots())]))
    ensures FindFree(FreeSlots()) == Some(0)
  {
    var s := Initial();
    assert forall e | 0 <= e < MAX_SERVICES :: !Serves(s.entries[e], 1) && !s.entries[e].inUse;
    assert !FreeSlots()[0].inUse;
  }

  // The initial state with an empty entry for receiver 1.
  function FreshState(): State {
    State(Initial().entries[0 := Entry(1, true, FreeSlots())], {})
  }

  // A Setup for a new receiver registers in a fresh entry.
  lemma FreshSetup(ts: seq<Tuple>)
    requires 1 <= |ts| <= MAX_TUPLES
    ensures Handle(Initial(), Setup, RequestOf(SETUP, 9, ts)) == Commit(FreshState(), 0, Register, 9, ts)
  {
    FreshEntry();
  }

  // The first mapping of a fresh entry, whatever its id.
  lemma FirstClaim(t: Tuple)
    requires t.id < ID_LIMIT
    ensures Claim(Table(FreeSlots(), {}), 9, t) ==
            Done(Table(FreeSlots()[0 := Mapping(t.cookie, t.id, t.ntype, 9, true)], {t.id}))
  {
    FreshEntry();
    assert {} + {t.id} == {t.id};
  }

  lemma OneRegisters(t: Tuple)
    requires t.id < ID_LIMIT
    ensures var run := RegisterLoop(FreeSlots(), Table(FreeSlots(), {}), 9, [t]);
            run.Done? && run.table.bits == {t.id}
  {
    NothingFree(t.cookie);
    FirstClaim(t);
    assert [t][1..] == [];
  }

  lemma TwoRegister(t: Tuple, u: Tuple)
    requires t.id < ID_LIMIT && u.id < ID_LIMIT && t.id != u.id
    ensures RegisterLoop(FreeSlots(), Table(FreeSlots(), {}), 9, [t, u]).Done?
  {
    NothingFree(t.cookie);
    NothingFree(u.cookie);
    FirstClaim(t);
    var next := Claim(Table(FreeSlots(), {}), 9, t).table;
    assert [t, u][1..] == [u] && [u][1..] == [];
    assert !next.slots[1].inUse;
    assert FindFree(next.slots).Some?;
    assert RegisterLoop(FreeSlots(), next, 9, [u]).Done?;
  }

  /** A Setup of id 0 is answered Ok and sets bit 0. */
  lemma ZeroIdRegistered()
    ensures var s := Initial();
            var (next, code) := Handle(s, Setup, RequestOf(SETUP, 9, [Tuple(7, 0, Global)]));
            Exact(s, 1) && code == Ok && next.bits == {0} && !Exact(next, 1)
  {
    FreshSetup([Tuple(7, 0, Global)]);
    OneRegisters(Tuple(7, 0, Global));
    InitiallyExact(1);
  }

  /**
   * A Setup that names cookie 7 twice is answered Ok and leaves two mappings with
   * it; sent one by one, the second tuple is refused.
   */
  lemma RepeatedCookieRegistered()
    ensures var s := Initial();
            var req := RequestOf(SETUP, 9, [Tuple(7, 1, Global), Tuple(7, 2, Global)]);
            var (next, code) := Handle(s, Setup, req);
            && code == Ok && !UniqueCookies(next.entries[0].mappings)
            && InOrder(s, Setup, req, Tuples(req)) != (next, code)
  {
    var ts := [Tuple(7, 1, Global), Tuple(7, 2, Global)];
    FreshSetup(ts);
    TwoRegister(ts[0], ts[1]);
    assert ts == [ts[0], ts[1]] && ts[0].cookie == ts[1].cookie;
    RegisterUniqueIff(Table(FreeSlots(), {}), 9, ts);
    RegisterSequenceIff(Initial(), Setup, RequestOf(SETUP, 9, ts));
  }

  // --- Destroy --------------------------------------------------------------------------

  /**
   * From source 0, a Destroy can release one mapping twice: the second tuple finds
   * the slot it just freed. Sent one by one, the second tuple is refused.
   */
  lemma ReleasedTwiceOver()
    ensures var s := OneMapping(5, 0);
            var req := RequestOf(DESTROY, 0, [Tuple(7, 5, Global), Tuple(7, 0, Global)]);
            && Exact(s, 1) && Handle(s, Destroy, req).1 == Ok
            && InOrder(s, Destroy, req, Tuples(req)) != Handle(s, Destroy, req)
  {
    var s := OneMapping(5, 0);
    var ts := [Tuple(7, 5, Global), Tuple(7, 0, Global)];
    var req := RequestOf(DESTROY, 0, ts);
    OneMappingExact(5, 0);
    var base := s.entries[0].mappings;
    var freed := Release(Table(base, {5}), 0, 0, ts[0]).table;
    assert ts[1..] == [ts[1]] && ts[1..][1..] == [];
    assert freed.slots[0] == FREE;
    assert UnregisterLoop(base, freed, 0, ts[1..]).Done?;
    assert ts[0].cookie == ts[1].cookie;
    ReleaseSequenceIff(s, Destroy, req);
  }
}
