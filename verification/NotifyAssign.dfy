/**
 * When a successful Assign keeps the bitmap exact. The check reads the old ids
 * from the slots before the request and simulates the bitmap, so a request that
 * repeats a cookie can leave bits and mappings apart. The exact condition for
 * every request comes first, then what it amounts to for requests of ids from 1
 * and for those that rename no mapping twice, with concrete requests on the
 * wrong side.
 */
module NotifyAssign {
  import opened Outcomes
  import opened NotifySpec
  import opened NotifyBatch
  import opened NotifyExact

  lemma OthersUnmoved(s: State, next: State, e: nat, lo: nat)
    requires e < |s.entries| && Exact(s, lo) && Exact(next, lo)
    requires |next.entries| == |s.entries|
    requires forall j | 0 <= j < |s.entries| && j != e :: next.entries[j] == s.entries[j]
    ensures Others(s, e, lo) == Others(next, e, lo)
  {
    assert forall e', k, i: nat | e' != e :: Holds(next, e', k, i) <==> Holds(s, e', k, i);
    forall i: nat
      ensures i in Others(s, e, lo) <==> i in Others(next, e, lo)
    {
      if i in Others(s, e, lo) {
        var e', k :| e' != e && lo <= i && Holds(s, e', k, i);
        assert Holds(next, e', k, i);
      }
      if i in Others(next, e, lo) {
        var e', k :| e' != e && lo <= i && Holds(next, e', k, i);
        assert Holds(s, e', k, i);
      }
    }
  }

  lemma AssignKeepsShape(s: State, req: Request)
    requires Shape(s)
    ensures Shape(Handle(s, Assign, req).0)
  {
    var found := FindEntry(s.entries, req.receiverUuid);
    if found.Some? {
      BatchKeepsSlots(Reassign, Table(s.entries[found.value].mappings, s.bits), req.srcId, Tuples(req));
    }
  }

  // The table a successful Assign leaves in the receiver's entry is what decides.
  lemma ExactIsFits(s: State, req: Request)
    requires Shape(s) && Exact(s, 1) && Handle(s, Assign, req).1 == Ok
    ensures FindEntry(s.entries, req.receiverUuid).Some?
    ensures var e := FindEntry(s.entries, req.receiverUuid).value;
            var tb := Table(s.entries[e].mappings, s.bits);
            && Fits(tb, Others(s, e, 1), 1)
            && Batch(Reassign, tb, req.srcId, Tuples(req)).Done?
            && (Exact(Handle(s, Assign, req).0, 1) <==>
                Fits(Batch(Reassign, tb, req.srcId, Tuples(req)).table, Others(s, e, 1), 1))
  {
    var e := FindEntry(s.entries, req.receiverUuid).value;
    var tb := Table(s.entries[e].mappings, s.bits);
    var next := Handle(s, Assign, req).0;
    ExactFits(s, e, 1);
    var after := Batch(Reassign, tb, req.srcId, Tuples(req)).table;
    if Fits(after, Others(s, e, 1), 1) {
      FitsExact(s, e, 1, after);
    }
    if Exact(next, 1) {
      AssignKeepsShape(s, req);
      OthersUnmoved(s, next, e, 1);
      ExactFits(next, e, 1);
      assert next.entries[e].mappings == after.slots;
    }
  }

  // --- Any successful Assign -----------------------------------------------------------

  // The mapping of the tuple's cookie has id `x` in `slots`, so the check clears bit `x` for it.
  predicate Frees(slots: seq<Mapping>, t: Tuple, x: nat) {
    FindCookie(slots, t.cookie).Some? && slots[FindCookie(slots, t.cookie).value].id == x
  }

  /** No later tuple clears the bit that tuple `i` sets. */
  predicate Stays(base: seq<Mapping>, ts: seq<Tuple>, i: nat)
    requires i < |ts|
  {
    forall j | i < j < |ts| :: !Frees(base, ts[j], ts[i].id)
  }

  /** No later tuple names the cookie of tuple `i`, so its mapping ends with this id. */
  predicate Decides(ts: seq<Tuple>, i: nat)
    requires i < |ts|
  {
    forall j | i < j < |ts| :: ts[j].cookie != ts[i].cookie
  }

  predicate SetsForGood(base: seq<Mapping>, ts: seq<Tuple>, x: nat) {
    exists i | 0 <= i < |ts| :: ts[i].id == x && Stays(base, ts, i)
  }

  predicate EndsWith(ts: seq<Tuple>, x: nat) {
    exists i | 0 <= i < |ts| :: ts[i].id == x && Decides(ts, i)
  }

  /**
   * The bits that tuples set for good are the ids from 1 their mappings end
   * with, and no two of those are the same.
   */
  predicate Balanced(base: seq<Mapping>, ts: seq<Tuple>) {
    && (forall i | 0 <= i < |ts| ::
          SetsForGood(base, ts, ts[i].id) <==> ts[i].id >= 1 && EndsWith(ts, ts[i].id))
    && (forall i, j | 0 <= i < |ts| && 0 <= j < |ts| && ts[i].id == ts[j].id >= 1 && Decides(ts, i) && Decides(ts, j) ::
          i == j)
  }

  // Setting for good, seen from the first tuple.
  lemma TailSets(base: seq<Mapping>, ts: seq<Tuple>, x: nat)
    requires ts != []
    ensures SetsForGood(base, ts, x) <==>
            SetsForGood(base, ts[1..], x) ||
            (ts[0].id == x && forall j | 0 <= j < |ts[1..]| :: !Frees(base, ts[1..][j], x))
    ensures (forall j | 0 <= j < |ts| :: !Frees(base, ts[j], x)) <==>
            !Frees(base, ts[0], x) && forall j | 0 <= j < |ts[1..]| :: !Frees(base, ts[1..][j], x)
  {
    var rest := ts[1..];
    assert forall j | 0 <= j < |rest| :: rest[j] == ts[j + 1];
    assert forall j | 1 <= j < |ts| :: ts[j] == rest[j - 1];
    if i :| 0 <= i < |rest| && rest[i].id == x && Stays(base, rest, i) {
      assert Stays(base, ts, i + 1);
    }
    if i :| 0 <= i < |ts| && ts[i].id == x && Stays(base, ts, i) {
      if i > 0 {
        assert Stays(base, rest, i - 1);
      }
    }
    if ts[0].id == x && forall j | 0 <= j < |rest| :: !Frees(base, rest[j], x) {
      assert Stays(base, ts, 0);
    }
  }

  // The bits after the check: those set for good, and those never cleared.
  lemma {:induction false} BitsAfter(base: seq<Mapping>, bits: set<nat>, ts: seq<Tuple>, x: nat)
    requires AssignCheck(base, bits, ts).Some?
    ensures x in AssignCheck(base, bits, ts).value <==>
            SetsForGood(base, ts, x) || (x in bits && forall j | 0 <= j < |ts| :: !Frees(base, ts[j], x))
    decreases |ts|
  {
    if ts != [] {
      var k := FindCookie(base, ts[0].cookie).value;
      BitsAfter(base, bits - {base[k].id} + {ts[0].id}, ts[1..], x);
      TailSets(base, ts, x);
    }
  }

  // A bit that no remaining tuple's old id equals is never cleared, and blocks its own id.
  lemma {:induction false} BitStays(base: seq<Mapping>, bits: set<nat>, ts: seq<Tuple>, x: nat)
    requires AssignCheck(base, bits, ts).Some? && x in bits
    requires forall i | 0 <= i < |ts| && FindCookie(base, ts[i].cookie).Some? ::
               base[FindCookie(base, ts[i].cookie).value].id != x
    ensures x in AssignCheck(base, bits, ts).value
    ensures forall i | 0 <= i < |ts| :: ts[i].id != x
    decreases |ts|
  {
    if ts != [] {
      var k := FindCookie(base, ts[0].cookie).value;
      assert forall i | 1 <= i < |ts| :: ts[i] == ts[1..][i - 1];
      BitStays(base, bits - {base[k].id} + {ts[0].id}, ts[1..], x);
    }
  }

  // A bit that is set before and never cleared is asked for by no tuple.
  lemma NeverAsked(base: seq<Mapping>, bits: set<nat>, ts: seq<Tuple>, x: nat)
    requires AssignCheck(base, bits, ts).Some? && x in bits
    requires forall i | 0 <= i < |ts| :: !Frees(base, ts[i], x)
    ensures x in AssignCheck(base, bits, ts).value
    ensures forall i | 0 <= i < |ts| :: ts[i].id != x
  {
    BitStays(base, bits, ts, x);
  }

  lemma {:induction false} LastOf(ts: seq<Tuple>, i: nat) returns (k: nat)
    requires i < |ts|
    ensures i <= k < |ts| && ts[k].cookie == ts[i].cookie && Decides(ts, k)
    decreases |ts| - i
  {
    if Decides(ts, i) {
      k := i;
    } else {
      var j :| i < j < |ts| && ts[j].cookie == ts[i].cookie;
      k := LastOf(ts, j);
    }
  }

  // The tuple looks its cookie up in slot `k`.
  predicate Touches(slots: seq<Mapping>, t: Tuple, k: nat) {
    FindCookie(slots, t.cookie) == Some(k)
  }

  // The slots after the apply pass: the last tuple on a slot decides its id and type.
  lemma {:induction false} SlotsAfter(slots: seq<Mapping>, ts: seq<Tuple>, k: nat)
    requires AllFound(slots, ts) && k < |slots|
    ensures AssignApply(slots, ts)[k].inUse == slots[k].inUse
    ensures forall i | 0 <= i < |ts| && Touches(slots, ts[i], k) && Decides(ts, i) ::
              AssignApply(slots, ts)[k] == slots[k].(id := ts[i].id, ntype := ts[i].ntype)
    ensures (forall i | 0 <= i < |ts| :: !Touches(slots, ts[i], k)) ==> AssignApply(slots, ts)[k] == slots[k]
    decreases |ts|
  {
    if ts != [] {
      var k0 := FindCookie(slots, ts[0].cookie).value;
      var m := slots[k0].(id := ts[0].id, ntype := ts[0].ntype);
      var after, rest := slots[k0 := m], ts[1..];
      AllFoundKept(slots, k0, m, ts);
      SlotsAfter(after, rest, k);
      assert forall i | 0 <= i < |rest| :: rest[i] == ts[i + 1];
      forall i | 0 <= i < |rest|
        ensures Touches(after, rest[i], k) == Touches(slots, ts[i + 1], k)
        ensures Decides(ts, i + 1) ==> Decides(rest, i)
      {
        LookupKept(slots, k0, m, ts[i + 1].cookie);
      }
      forall i | 0 <= i < |ts| && Touches(slots, ts[i], k) && Decides(ts, i)
        ensures AssignApply(slots, ts)[k] == slots[k].(id := ts[i].id, ntype := ts[i].ntype)
      {
        if i > 0 {
          assert Touches(after, rest[i - 1], k) && Decides(rest, i - 1);
        }
      }
    }
  }

  // An id held by a slot that no tuple touches is cleared by none, and asked for by none.
  lemma UntouchedKeeps(base: seq<Mapping>, bits: set<nat>, others: set<nat>, ts: seq<Tuple>, k: nat, x: nat)
    requires Fits(Table(base, bits), others, 1) && AssignCheck(base, bits, ts).Some?
    requires k < |base| && x in Own(base[k], 1) && forall i | 0 <= i < |ts| :: !Touches(base, ts[i], k)
    ensures x in AssignCheck(base, bits, ts).value
    ensures forall i | 0 <= i < |ts| :: ts[i].id != x
  {
    assert x in Ids(base, 1);
    assert forall j | 0 <= j < |base| && x in Own(base[j], 1) :: j == k;
    NeverAsked(base, bits, ts, x);
  }

  // ... and so is an id held by another entry.
  lemma OthersKeep(base: seq<Mapping>, bits: set<nat>, others: set<nat>, ts: seq<Tuple>, x: nat)
    requires Fits(Table(base, bits), others, 1) && AssignCheck(base, bits, ts).Some? && x in others
    ensures x in AssignCheck(base, bits, ts).value
    ensures forall i | 0 <= i < |ts| :: ts[i].id != x
  {
    assert forall j | 0 <= j < |base| :: x !in Own(base[j], 1);
    NeverAsked(base, bits, ts, x);
  }

  // The ids from 1 that the slots end with: what deciding tuples ask for, and what was untouched.
  lemma FinalOwner(base: seq<Mapping>, bits: set<nat>, ts: seq<Tuple>, k: nat, x: nat) returns (touched: bool, i: nat)
    requires AssignCheck(base, bits, ts).Some? && AllFound(base, ts)
    requires k < |base| && x in Own(AssignApply(base, ts)[k], 1)
    ensures touched ==> i < |ts| && Touches(base, ts[i], k) && Decides(ts, i) && ts[i].id == x && EndsWith(ts, x)
    ensures !touched ==> x in Own(base[k], 1) && forall j | 0 <= j < |ts| :: !Touches(base, ts[j], k)
  {
    SlotsAfter(base, ts, k);
    i := 0;
    touched := exists j | 0 <= j < |ts| :: Touches(base, ts[j], k);
    if touched {
      var j :| 0 <= j < |ts| && Touches(base, ts[j], k);
      i := LastOf(ts, j);
    }
  }

  // What a deciding tuple asks for ends up in its slot.
  lemma DecidedOwner(base: seq<Mapping>, ts: seq<Tuple>, i: nat) returns (k: nat)
    requires AllFound(base, ts) && i < |ts| && Decides(ts, i) && ts[i].id >= 1
    ensures k < |base| && Touches(base, ts[i], k)
    ensures ts[i].id in Own(AssignApply(base, ts)[k], 1)
  {
    k := FindCookie(base, ts[i].cookie).value;
    SlotsAfter(base, ts, k);
  }

  // What the entry holds in the end, no other entry holds.
  lemma EndsElsewhere(base: seq<Mapping>, bits: set<nat>, others: set<nat>, ts: seq<Tuple>, x: nat)
    requires Fits(Table(base, bits), others, 1) && AssignCheck(base, bits, ts).Some? && AllFound(base, ts)
    requires x in Ids(AssignApply(base, ts), 1)
    ensures x !in others
  {
    var k :| 0 <= k < |base| && x in Own(AssignApply(base, ts)[k], 1);
    var touched, i := FinalOwner(base, bits, ts, k, x);
    if x in others {
      OthersKeep(base, bits, others, ts, x);
    }
  }

  lemma DecidedOnce(base: seq<Mapping>, ts: seq<Tuple>, i: nat, i': nat, j: nat, k: nat)
    requires Balanced(base, ts) && i < |ts| && i' < |ts| && ts[i].id == ts[i'].id >= 1
    requires Decides(ts, i) && Decides(ts, i') && Touches(base, ts[i], j) && Touches(base, ts[i'], k)
    ensures j == k
  {
    assert i == i';
  }

  // Slot `k` ends with id `x`: tuple `i` decided so, or it is untouched and had it.
  ghost predicate EndsAs(base: seq<Mapping>, ts: seq<Tuple>, k: nat, x: nat, touched: bool, i: nat)
    requires k < |base|
  {
    && (touched ==> i < |ts| && Touches(base, ts[i], k) && Decides(ts, i) && ts[i].id == x)
    && (!touched ==> x in Own(base[k], 1) && forall j | 0 <= j < |ts| :: !Touches(base, ts[j], k))
  }

  lemma OwnersAgree(
        base: seq<Mapping>, bits: set<nat>, others: set<nat>, ts: seq<Tuple>, x: nat,
        j: nat, jTouched: bool, i: nat, k: nat, kTouched: bool, i': nat)
    requires Fits(Table(base, bits), others, 1) && AssignCheck(base, bits, ts).Some?
    requires Balanced(base, ts) && x >= 1 && j < |base| && k < |base|
    requires EndsAs(base, ts, j, x, jTouched, i) && EndsAs(base, ts, k, x, kTouched, i')
    ensures j == k
  {
    if jTouched && kTouched {
      DecidedOnce(base, ts, i, i', j, k);
    } else if jTouched {
      UntouchedKeeps(base, bits, others, ts, k, x);
    } else if kTouched {
      UntouchedKeeps(base, bits, others, ts, j, x);
    }
  }

  lemma BalancedUnique(base: seq<Mapping>, bits: set<nat>, others: set<nat>, ts: seq<Tuple>, j: nat, k: nat, x: nat)
    requires Fits(Table(base, bits), others, 1) && AssignCheck(base, bits, ts).Some? && AllFound(base, ts)
    requires Balanced(base, ts) && j < |base| && k < |base|
    requires x in Own(AssignApply(base, ts)[j], 1) && x in Own(AssignApply(base, ts)[k], 1)
    ensures j == k
  {
    var jTouched, i := FinalOwner(base, bits, ts, j, x);
    var kTouched, i' := FinalOwner(base, bits, ts, k, x);
    OwnersAgree(base, bits, others, ts, x, j, jTouched, i, k, kTouched, i');
  }

  lemma TouchersFree(base: seq<Mapping>, ts: seq<Tuple>, k: nat, x: nat)
    requires k < |base| && x in Own(base[k], 1)
    ensures forall i | 0 <= i < |ts| && Touches(base, ts[i], k) :: Frees(base, ts[i], x)
  {
  }

  lemma BalancedSet(base: seq<Mapping>, bits: set<nat>, others: set<nat>, ts: seq<Tuple>, x: nat)
    requires Fits(Table(base, bits), others, 1) && AssignCheck(base, bits, ts).Some? && AllFound(base, ts)
    requires Balanced(base, ts)
    ensures x in AssignCheck(base, bits, ts).value <==> x in others || x in Ids(AssignApply(base, ts), 1)
  {
    BitsAfter(base, bits, ts, x);
    if SetsForGood(base, ts, x) {
      assert EndsWith(ts, x);
      var i :| 0 <= i < |ts| && ts[i].id == x && Decides(ts, i);
      var k := DecidedOwner(base, ts, i);
    } else if x in others {
      OthersKeep(base, bits, others, ts, x);
    } else if x in AssignCheck(base, bits, ts).value {
      var k :| 0 <= k < |base| && x in Own(base[k], 1);
      TouchersFree(base, ts, k, x);
      SlotsAfter(base, ts, k);
    } else if k :| 0 <= k < |base| && x in Own(AssignApply(base, ts)[k], 1) {
      var touched, i := FinalOwner(base, bits, ts, k, x);
      if !touched {
        UntouchedKeeps(base, bits, others, ts, k, x);
      }
    }
  }

  lemma BalancedFits(base: seq<Mapping>, bits: set<nat>, others: set<nat>, ts: seq<Tuple>)
    requires Fits(Table(base, bits), others, 1) && AssignCheck(base, bits, ts).Some? && AllFound(base, ts)
    requires Balanced(base, ts)
    ensures Fits(Table(AssignApply(base, ts), AssignCheck(base, bits, ts).value), others, 1)
  {
    var slots, bits' := AssignApply(base, ts), AssignCheck(base, bits, ts).value;
    CheckedFit(base, bits, ts);
    AssignKeepsSlots(base, ts);
    forall j, k, x: nat | 0 <= j < |slots| && 0 <= k < |slots| && x in Own(slots[j], 1) && x in Own(slots[k], 1)
      ensures j == k
    {
      BalancedUnique(base, bits, others, ts, j, k, x);
    }
    forall x | x in Ids(slots, 1)
      ensures x !in others
    {
      EndsElsewhere(base, bits, others, ts, x);
    }
    forall x: nat
      ensures x in bits' <==> x in others + Ids(slots, 1)
    {
      BalancedSet(base, bits, others, ts, x);
    }
    assert others <= bits;
  }

  lemma FitsSets(base: seq<Mapping>, bits: set<nat>, others: set<nat>, ts: seq<Tuple>, i: nat)
    requires Fits(Table(base, bits), others, 1) && AssignCheck(base, bits, ts).Some? && AllFound(base, ts)
    requires Fits(Table(AssignApply(base, ts), AssignCheck(base, bits, ts).value), others, 1) && i < |ts|
    ensures SetsForGood(base, ts, ts[i].id) <==> ts[i].id >= 1 && EndsWith(ts, ts[i].id)
  {
    var x: nat, slots := ts[i].id, AssignApply(base, ts);
    BitsAfter(base, bits, ts, x);
    if x in others {
      OthersKeep(base, bits, others, ts, x);
    }
    if x in bits && forall j | 0 <= j < |ts| :: !Frees(base, ts[j], x) {
      NeverAsked(base, bits, ts, x);
    }
    if SetsForGood(base, ts, x) {
      var k :| 0 <= k < |slots| && x in Own(slots[k], 1);
      var touched, j := FinalOwner(base, bits, ts, k, x);
      if !touched {
        UntouchedKeeps(base, bits, others, ts, k, x);
      }
    }
    if x >= 1 && EndsWith(ts, x) {
      var j :| 0 <= j < |ts| && ts[j].id == x && Decides(ts, j);
      var k := DecidedOwner(base, ts, j);
      assert x in Ids(slots, 1);
    }
  }

  lemma FitsDecides(base: seq<Mapping>, bits: set<nat>, others: set<nat>, ts: seq<Tuple>, i: nat, j: nat)
    requires AllFound(base, ts) && Fits(Table(AssignApply(base, ts), bits), others, 1)
    requires i < |ts| && j < |ts| && ts[i].id == ts[j].id >= 1 && Decides(ts, i) && Decides(ts, j)
    ensures i == j
  {
    var a := DecidedOwner(base, ts, i);
    var b := DecidedOwner(base, ts, j);
    assert a == b;
    assert base[a].cookie == ts[i].cookie == ts[j].cookie;
  }

  /** A successful Assign keeps the bitmap exact exactly when it is balanced. */
  lemma AssignExactIff(s: State, req: Request)
    requires Shape(s) && Exact(s, 1) && Handle(s, Assign, req).1 == Ok
    ensures FindEntry(s.entries, req.receiverUuid).Some?
    ensures Exact(Handle(s, Assign, req).0, 1) <==>
            Balanced(s.entries[FindEntry(s.entries, req.receiverUuid).value].mappings, Tuples(req))
  {
    ExactIsFits(s, req);
    var e := FindEntry(s.entries, req.receiverUuid).value;
    var ts := Tuples(req);
    var base, others := s.entries[e].mappings, Others(s, e, 1);
    CheckedAreFound(base, s.bits, ts);
    if Balanced(base, ts) {
      BalancedFits(base, s.bits, others, ts);
    }
    var after := Batch(Reassign, Table(base, s.bits), req.srcId, ts).table;
    if Fits(after, others, 1) {
      forall i | 0 <= i < |ts|
        ensures SetsForGood(base, ts, ts[i].id) <==> ts[i].id >= 1 && EndsWith(ts, ts[i].id)
      {
        FitsSets(base, s.bits, others, ts, i);
      }
      forall i, j | 0 <= i < |ts| && 0 <= j < |ts| && ts[i].id == ts[j].id >= 1 && Decides(ts, i) && Decides(ts, j)
        ensures i == j
      {
        FitsDecides(base, after.bits, others, ts, i, j);
      }
    }
  }

  // --- Assign: a repeated cookie must not rename twice ----------------------------

  // What a slot holds after the apply pass: its own id, or one the batch asked for.
  lemma {:induction false} AppliedId(slots: seq<Mapping>, ts: seq<Tuple>, k: nat, x: nat)
    requires AllFound(slots, ts) && k < |slots|
    requires forall i | 0 <= i < |ts| :: ts[i].id != x
    ensures AssignApply(slots, ts)[k].inUse == slots[k].inUse
    ensures AssignApply(slots, ts)[k].id == x ==>
              slots[k].id == x && forall i | 0 <= i < |ts| :: FindCookie(slots, ts[i].cookie) != Some(k)
    decreases |ts|
  {
    if ts != [] {
      var k0 := FindCookie(slots, ts[0].cookie).value;
      var m := slots[k0].(id := ts[0].id, ntype := ts[0].ntype);
      var after := slots[k0 := m];
      AllFoundKept(slots, k0, m, ts);
      assert forall i | 1 <= i < |ts| :: ts[i] == ts[1..][i - 1];
      AppliedId(after, ts[1..], k, x);
      forall i | 0 <= i < |ts|
        ensures FindCookie(after, ts[i].cookie) == FindCookie(slots, ts[i].cookie)
      {
        LookupKept(slots, k0, m, ts[i].cookie);
      }
    }
  }

  // The bit set for a mapping that is renamed again belongs to nobody in the end.
  lemma StaleLeaks(base: seq<Mapping>, tb: Table, others: set<nat>, ts: seq<Tuple>)
    requires Fits(tb, others, 1) && ts != [] && SameIds(base, tb.slots, ts) && StaleHead(base, ts)
    requires ts[0].id >= 1 && AssignCheck(base, tb.bits, ts).Some? && AllFound(tb.slots, ts)
    ensures !Fits(Table(AssignApply(tb.slots, ts), AssignCheck(base, tb.bits, ts).value), others, 1)
  {
    var x := ts[0].id;
    var k := FindCookie(tb.slots, ts[0].cookie).value;
    var m := tb.slots[k].(id := x, ntype := ts[0].ntype);
    var rest := ts[1..];
    assert forall i | 0 <= i < |rest| :: rest[i] == ts[i + 1];
    assert x !in tb.bits;
    forall j | 0 <= j < |tb.slots| && tb.slots[j].inUse
      ensures tb.slots[j].id != x
    {
      assert tb.slots[j].id >= 1 ==> tb.slots[j].id in Own(tb.slots[j], 1);
    }
    BitStays(base, tb.bits - {base[k].id} + {x}, rest, x);
    AllFoundKept(tb.slots, k, m, ts);
    var final := AssignApply(tb.slots, ts);
    assert final == AssignApply(tb.slots[k := m], rest);
    var again :| 1 <= again < |ts| && ts[again].cookie == ts[0].cookie;
    LookupKept(tb.slots, k, m, ts[again].cookie);
    assert FindCookie(tb.slots[k := m], rest[again - 1].cookie) == Some(k);
    forall j | 0 <= j < |final|
      ensures x !in Own(final[j], 1)
    {
      AppliedId(tb.slots[k := m], rest, j, x);
    }
    assert x !in Ids(final, 1) && x !in others;
  }

  // Both directions, for a batch that passes the check.
  lemma {:induction false} AssignFitsIff(base: seq<Mapping>, tb: Table, others: set<nat>, src: U16, ts: seq<Tuple>)
    requires Fits(tb, others, 1) && SameIds(base, tb.slots, ts)
    requires AssignCheck(base, tb.bits, ts).Some? && AllFound(tb.slots, ts)
    requires forall i | 0 <= i < |ts| :: ts[i].id >= 1
    ensures Fits(Table(AssignApply(tb.slots, ts), AssignCheck(base, tb.bits, ts).value), others, 1) <==>
            Settled(base, ts)
    decreases |ts|
  {
    if ts != [] {
      if StaleHead(base, ts) {
        StaleLeaks(base, tb, others, ts);
      } else {
        var k := FindCookie(tb.slots, ts[0].cookie).value;
        var next := ApplyOne(Reassign, tb, src, ts[0]).table;
        OneFits(Reassign, tb, others, 1, src, ts[0]);
        AssignKeepsIds(base, tb, src, ts);
        SettledTail(base, ts);
        AllFoundKept(tb.slots, k, next.slots[k], ts);
        assert forall i | 0 <= i < |ts[1..]| :: ts[1..][i] == ts[i + 1];
        AssignFitsIff(base, next, others, src, ts[1..]);
      }
    }
  }

  /**
   * A successful Assign of ids from 1 keeps the bitmap exact exactly when every
   * tuple whose cookie is named again later repeats the id the mapping had.
   */
  lemma AssignFromOneIff(s: State, req: Request)
    requires Shape(s) && Exact(s, 1) && Handle(s, Assign, req).1 == Ok
    requires forall i | 0 <= i < |Tuples(req)| :: Tuples(req)[i].id >= 1
    ensures FindEntry(s.entries, req.receiverUuid).Some?
    ensures Exact(Handle(s, Assign, req).0, 1) <==>
            Settled(s.entries[FindEntry(s.entries, req.receiverUuid).value].mappings, Tuples(req))
  {
    ExactIsFits(s, req);
    var e := FindEntry(s.entries, req.receiverUuid).value;
    var tb := Table(s.entries[e].mappings, s.bits);
    CheckedAreFound(tb.slots, tb.bits, Tuples(req));
    AssignFitsIff(tb.slots, tb, Others(s, e, 1), req.srcId, Tuples(req));
  }

  // --- Assign: id 0 has to be cleared again ---------------------------------------------

  // The table fits its bitmap, bit 0 aside.
  ghost predicate FitsAboveZero(tb: Table, others: set<nat>) {
    Fits(Table(tb.slots, tb.bits - {0}), others, 1)
  }

  // The mapping of the tuple's cookie is unassigned.
  predicate OnUnassigned(slots: seq<Mapping>, t: Tuple) {
    Frees(slots, t, 0)
  }

  /** Every tuple that asks for id 0 is followed by one on an unassigned mapping. */
  predicate ZerosCleared(slots: seq<Mapping>, ts: seq<Tuple>) {
    forall i | 0 <= i < |ts| && ts[i].id == 0 :: exists j | i < j < |ts| :: OnUnassigned(slots, ts[j])
  }

  lemma ReassignAboveZero(tb: Table, others: set<nat>, src: U16, t: Tuple)
    requires FitsAboveZero(tb, others) && ApplyOne(Reassign, tb, src, t).Done?
    ensures FitsAboveZero(ApplyOne(Reassign, tb, src, t).table, others)
    ensures 0 in ApplyOne(Reassign, tb, src, t).table.bits <==>
            t.id == 0 || (0 in tb.bits && !OnUnassigned(tb.slots, t))
  {
    var k := FindCookie(tb.slots, t.cookie).value;
    var was, m := tb.slots[k], tb.slots[k].(id := t.id, ntype := t.ntype);
    var next := ApplyOne(Reassign, tb, src, t).table;
    Rewrite(Table(tb.slots, tb.bits - {0}), others, 1, k, m);
    assert next.bits - {0} == tb.bits - {0} - Own(was, 1) + Own(m, 1);
  }

  lemma ZerosSplit(base: seq<Mapping>, ts: seq<Tuple>)
    requires ts != []
    ensures (exists j | 0 <= j < |ts[1..]| :: OnUnassigned(base, ts[1..][j])) <==>
            exists j | 0 < j < |ts| :: OnUnassigned(base, ts[j])
    ensures ZerosCleared(base, ts) <==>
            ZerosCleared(base, ts[1..]) && (ts[0].id == 0 ==> exists j | 0 < j < |ts| :: OnUnassigned(base, ts[j]))
  {
    var rest := ts[1..];
    assert forall i | 0 <= i < |rest| :: rest[i] == ts[i + 1];
    assert forall j | 0 < j < |ts| :: ts[j] == rest[j - 1];
    if ZerosCleared(base, ts) {
      forall i | 0 <= i < |rest| && rest[i].id == 0
        ensures exists j | i < j < |rest| :: OnUnassigned(base, rest[j])
      {
        var j :| i + 1 < j < |ts| && OnUnassigned(base, ts[j]);
        assert OnUnassigned(base, rest[j - 1]);
      }
    }
    if ZerosCleared(base, rest) {
      forall i | 0 < i < |ts| && ts[i].id == 0
        ensures exists j | i < j < |ts| :: OnUnassigned(base, ts[j])
      {
        var j :| i - 1 < j < |rest| && OnUnassigned(base, rest[j]);
        assert OnUnassigned(base, ts[j + 1]);
      }
    }
    if j :| 0 <= j < |rest| && OnUnassigned(base, rest[j]) {
      assert OnUnassigned(base, ts[j + 1]);
    }
    if j :| 0 < j < |ts| && OnUnassigned(base, ts[j]) {
      assert OnUnassigned(base, rest[j - 1]);
    }
  }

  lemma {:induction false} ZeroBit(base: seq<Mapping>, tb: Table, others: set<nat>, src: U16, ts: seq<Tuple>)
    requires FitsAboveZero(tb, others) && Settled(base, ts) && SameIds(base, tb.slots, ts)
    requires ApplyAll(Reassign, tb, src, ts).Done?
    ensures FitsAboveZero(ApplyAll(Reassign, tb, src, ts).table, others)
    ensures 0 !in ApplyAll(Reassign, tb, src, ts).table.bits <==>
            ZerosCleared(base, ts) && (0 in tb.bits ==> exists j | 0 <= j < |ts| :: OnUnassigned(base, ts[j]))
    decreases |ts|
  {
    if ts != [] {
      var next := ApplyOne(Reassign, tb, src, ts[0]).table;
      ReassignAboveZero(tb, others, src, ts[0]);
      SettledTail(base, ts);
      AssignKeepsIds(base, tb, src, ts);
      ZeroBit(base, next, others, src, ts[1..]);
      ZerosSplit(base, ts);
    }
  }

  /**
   * A successful settled Assign, of any ids, keeps the bitmap exact exactly when
   * every tuple asking for id 0 is followed by one on a mapping that was
   * unassigned.
   */
  lemma AssignSettledIff(s: State, req: Request)
    requires Shape(s) && Exact(s, 1) && Handle(s, Assign, req).1 == Ok
    requires OrderlyRequest(s, Assign, req)
    ensures FindEntry(s.entries, req.receiverUuid).Some?
    ensures Exact(Handle(s, Assign, req).0, 1) <==>
            ZerosCleared(s.entries[FindEntry(s.entries, req.receiverUuid).value].mappings, Tuples(req))
  {
    ExactIsFits(s, req);
    var e := FindEntry(s.entries, req.receiverUuid).value;
    var ts := Tuples(req);
    var tb := Table(s.entries[e].mappings, s.bits);
    AssignInOrder(tb.slots, tb, req.srcId, ts);
    assert tb.bits - {0} == tb.bits;
    ZeroBit(tb.slots, tb, Others(s, e, 1), req.srcId, ts);
    var after := ApplyAll(Reassign, tb, req.srcId, ts).table;
    assert 0 !in after.bits ==> after.bits - {0} == after.bits;
  }

  // --- Assign against its one-tuple requests ---------------------------------------------

  /**
   * The simulated bitmap when tuple `i` clears `olds[i]` and sets `ids[i]`: none
   * when an id is still set as its turn comes.
   */
  function Simulate(bits: set<nat>, olds: seq<nat>, ids: seq<nat>): Option<set<nat>>
    requires |olds| == |ids|
    decreases |ids|
  {
    if ids == [] then Some(bits)
    else
      var cleared := bits - {olds[0]};
      if ids[0] in cleared then None else Simulate(cleared + {ids[0]}, olds[1..], ids[1..])
  }

  function IdsAsked(ts: seq<Tuple>): (r: seq<nat>)
    ensures |r| == |ts|
  {
    if ts == [] then [] else [ts[0].id] + IdsAsked(ts[1..])
  }

  lemma FoundTail(slots: seq<Mapping>, ts: seq<Tuple>)
    requires AllFound(slots, ts) && ts != []
    ensures AllFound(slots, ts[1..])
  {
    assert forall i | 0 <= i < |ts[1..]| :: ts[1..][i] == ts[i + 1];
  }

  /** The ids that the mappings of the tuples had before the request. */
  function IdsBefore(base: seq<Mapping>, ts: seq<Tuple>): (r: seq<nat>)
    requires AllFound(base, ts)
    ensures |r| == |ts|
  {
    if ts == [] then []
    else
      FoundTail(base, ts);
      [base[FindCookie(base, ts[0].cookie).value].id] + IdsBefore(base, ts[1..])
  }

  /** The ids that they have when the turn of each tuple comes. */
  function IdsByThen(slots: seq<Mapping>, ts: seq<Tuple>): (r: seq<nat>)
    requires AllFound(slots, ts)
    ensures |r| == |ts|
    decreases |ts|
  {
    if ts == [] then []
    else
      var k := FindCookie(slots, ts[0].cookie).value;
      var m := slots[k].(id := ts[0].id, ntype := ts[0].ntype);
      AllFoundKept(slots, k, m, ts);
      [slots[k].id] + IdsByThen(slots[k := m], ts[1..])
  }

  lemma {:induction false} CheckSimulates(base: seq<Mapping>, bits: set<nat>, ts: seq<Tuple>)
    requires AssignCheck(base, bits, ts).Some? && AllFound(base, ts)
    ensures AssignCheck(base, bits, ts) == Simulate(bits, IdsBefore(base, ts), IdsAsked(ts))
    decreases |ts|
  {
    if ts != [] {
      FoundTail(base, ts);
      CheckSimulates(base, bits - {base[FindCookie(base, ts[0].cookie).value].id} + {ts[0].id}, ts[1..]);
    }
  }

  lemma {:induction false} OrderSimulates(tb: Table, src: U16, ts: seq<Tuple>)
    requires AllFound(tb.slots, ts) && forall i | 0 <= i < |ts| :: ts[i].id < ID_LIMIT
    ensures var bits := Simulate(tb.bits, IdsByThen(tb.slots, ts), IdsAsked(ts));
            ApplyAll(Reassign, tb, src, ts) ==
            if bits.Some? then Done(Table(AssignApply(tb.slots, ts), bits.value)) else Refused(InvalidParameters)
    decreases |ts|
  {
    if ts != [] {
      var k := FindCookie(tb.slots, ts[0].cookie).value;
      var m := tb.slots[k].(id := ts[0].id, ntype := ts[0].ntype);
      AllFoundKept(tb.slots, k, m, ts);
      if ts[0].id !in tb.bits - {tb.slots[k].id} {
        assert forall i | 0 <= i < |ts[1..]| :: ts[1..][i] == ts[i + 1];
        OrderSimulates(Table(tb.slots[k := m], tb.bits - {tb.slots[k].id} + {ts[0].id}), src, ts[1..]);
      }
    }
  }

  /**
   * A successful Assign, of any ids and cookies and on any tables, equals its
   * one-tuple requests exactly when the bitmap comes out the same whether each
   * tuple clears the id its mapping had before the request or the one it has by
   * then.
   */
  lemma AssignSequenceIff(s: State, req: Request)
    requires Handle(s, Assign, req).1 == Ok
    ensures FindEntry(s.entries, req.receiverUuid).Some?
    ensures var base, ts := s.entries[FindEntry(s.entries, req.receiverUuid).value].mappings, Tuples(req);
            && AllFound(base, ts)
            && (InOrder(s, Assign, req, ts) == Handle(s, Assign, req) <==>
                Simulate(s.bits, IdsByThen(base, ts), IdsAsked(ts)) ==
                Simulate(s.bits, IdsBefore(base, ts), IdsAsked(ts)))
  {
    var e := FindEntry(s.entries, req.receiverUuid).value;
    var ts := Tuples(req);
    var tb := Table(s.entries[e].mappings, s.bits);
    SequenceIff(s, e, Assign, req);
    CheckedAreFound(tb.slots, tb.bits, ts);
    CheckedFit(tb.slots, tb.bits, ts);
    CheckSimulates(tb.slots, tb.bits, ts);
    OrderSimulates(tb, req.srcId, ts);
  }

  /** For ids from 1 on an exact bitmap that is: exactly when it is settled. */
  lemma AssignSequenceFromOneIff(s: State, req: Request)
    requires Shape(s) && Exact(s, 1) && Handle(s, Assign, req).1 == Ok
    requires forall i | 0 <= i < |Tuples(req)| :: Tuples(req)[i].id >= 1
    ensures FindEntry(s.entries, req.receiverUuid).Some?
    ensures InOrder(s, Assign, req, Tuples(req)) == Handle(s, Assign, req) <==>
            Settled(s.entries[FindEntry(s.entries, req.receiverUuid).value].mappings, Tuples(req))
  {
    var e := FindEntry(s.entries, req.receiverUuid).value;
    var ts := Tuples(req);
    var tb := Table(s.entries[e].mappings, s.bits);
    SequenceIff(s, e, Assign, req);
    AssignFromOneIff(s, req);
    ExactIsFits(s, req);
    if Settled(tb.slots, ts) {
      BatchInOrder(Reassign, tb, req.srcId, ts);
    } else if ApplyAll(Reassign, tb, req.srcId, ts).Done? {
      AllFit(Reassign, tb, Others(s, e, 1), 1, req.srcId, ts);
    }
  }
}
