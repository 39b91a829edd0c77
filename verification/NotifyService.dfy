/**
 * The Notify service as it runs: two fields updated in place, a bitmap word
 * manipulated with shifts and masks, copies committed at the end of a loop.
 * Each method is proved to do exactly what `NotifySpec` says.
 */
module NotifyService {
  import opened Outcomes
  import opened NotifySpec
  import opened Bits

  lemma {:induction false} OrZero(w: nat)
    ensures Or(0, w) == w
    decreases w
  {
    if w > 0 {
      OrZero(w / 2);
    }
  }

  /** The mask of a notification id; None when the id does not fit the word. */
  function NfyBitmask(id: U16): (r: Option<Word>)
    ensures r.Some? <==> id < WIDTH
    ensures r.Some? ==> BitSet(r.value) == {id}
  {
    if id < WIDTH then
      SetBit(0, id);
      BitSetOfZero();
      OrZero(Bit(id));
      Some(Bit(id))
    else None
  }

  class Notify {
    var entries: seq<Entry>
    var globalBitmap: Word

    /** Table sizes, and ids that fit the bitmap. */
    ghost predicate Valid()
      reads this
    {
      && |entries| == MAX_SERVICES
      && (forall e | 0 <= e < |entries| :: ValidSlots(entries[e].mappings))
    }

    static predicate ValidSlots(slots: seq<Mapping>) {
      |slots| == MAX_MAPPINGS && forall k | 0 <= k < |slots| :: slots[k].id < WIDTH
    }

    ghost function Contents(): State
      reads this
    {
      State(entries, BitSet(globalBitmap))
    }

    constructor ()
      ensures Valid()
      ensures Contents() == Initial()
    {
      entries := Initial().entries;
      globalBitmap := 0;
      BitSetOfZero();
    }

    method FindOrCreateEntry(uuid: Uuid) returns (r: Option<nat>)
      requires Valid()
      modifies this
      ensures Valid() && globalBitmap == old(globalBitmap)
      ensures FindOrCreate(old(entries), uuid) ==
              if r.Some? then Some((r.value, entries)) else None
      ensures r.None? ==> entries == old(entries)
    {
      var found := FindEntry(entries, uuid);
      if found.Some? {
        return found;
      }
      var empty := FindEmpty(entries);
      if empty.None? {
        return None;
      }
      entries := entries[empty.value := Entry(uuid, true, FreeSlots())];
      return empty;
    }

    // What a batch leaves behind: all of it on success, nothing otherwise.
    twostate predicate Committed(e: nat, kind: Kind, src: U16, ts: seq<Tuple>, code: ErrorCode)
      requires e < |old(entries)|
      reads this
    {
      (Contents(), code) == Commit(old(Contents()), e, kind, src, ts)
    }

    method RegisterMapping(entryIndex: nat, req: Request) returns (code: ErrorCode)
      requires Valid()
      modifies this
      ensures Valid()
      ensures entryIndex < MAX_SERVICES ==> Committed(entryIndex, Register, req.srcId, Tuples(req), code)
      ensures entryIndex >= MAX_SERVICES ==> (Contents(), code) == (old(Contents()), InvalidParameters)
    {
      if entryIndex >= MAX_SERVICES {
        return InvalidParameters;
      }
      var slots := entries[entryIndex].mappings;
      var mask: Word := globalBitmap;
      var ts := Tuples(req);
      ghost var base := slots;
      ghost var goal := RegisterLoop(base, Table(base, BitSet(mask)), req.srcId, ts);
      for i := 0 to |ts|
        invariant entries == old(entries) && globalBitmap == old(globalBitmap)
        invariant ValidSlots(slots)
        invariant goal == RegisterLoop(base, Table(slots, BitSet(mask)), req.srcId, ts[i..])
      {
        var t := ts[i];
        assert ts[i..][0] == t && ts[i..][1..] == ts[i + 1..];
        if FindCookie(entries[entryIndex].mappings, t.cookie).Some? {
          return InvalidParameters;
        }
        var bit := NfyBitmask(t.id);
        if bit.None? {
          return InvalidParameters;
        }
        TestBit(mask, t.id);
        SetBit(mask, t.id);
        if And(mask, Bit(t.id)) != 0 {
          return InvalidParameters;
        }
        var free := FindFree(slots);
        if free.None? {
          return NoMemory;
        }
        slots := slots[free.value := Mapping(t.cookie, t.id, t.ntype, req.srcId, true)];
        mask := Or(mask, Bit(t.id));
      }
      assert ts[|ts|..] == [];
      entries := entries[entryIndex := entries[entryIndex].(mappings := slots)];
      globalBitmap := mask;
      return Ok;
    }

    method UnregisterMapping(entryIndex: nat, req: Request) returns (code: ErrorCode)
      requires Valid()
      modifies this
      ensures Valid()
      ensures entryIndex < MAX_SERVICES ==> Committed(entryIndex, Unregister, req.srcId, Tuples(req), code)
      ensures entryIndex >= MAX_SERVICES ==> (Contents(), code) == (old(Contents()), InvalidParameters)
    {
      if entryIndex >= MAX_SERVICES {
        return InvalidParameters;
      }
      var slots := entries[entryIndex].mappings;
      var mask: Word := globalBitmap;
      var ts := Tuples(req);
      ghost var base := slots;
      ghost var goal := UnregisterLoop(base, Table(base, BitSet(mask)), req.srcId, ts);
      for i := 0 to |ts|
        invariant entries == old(entries) && globalBitmap == old(globalBitmap)
        invariant ValidSlots(slots)
        invariant goal == UnregisterLoop(base, Table(slots, BitSet(mask)), req.srcId, ts[i..])
      {
        var t := ts[i];
        assert ts[i..][0] == t && ts[i..][1..] == ts[i + 1..];
        var found := FindCookie(entries[entryIndex].mappings, t.cookie);
        if found.None? {
          return InvalidParameters;
        }
        var m := slots[found.value];
        if m.id != t.id {
          return InvalidParameters;
        }
        if m.ntype != t.ntype {
          return InvalidParameters;
        }
        if m.srcId != req.srcId {
          return InvalidParameters;
        }
        slots := slots[found.value := FREE];
        // The shift of the mask: `Bit` demands a position inside the word.
        ClearBit(mask, m.id);
        mask := AndNot(mask, Bit(m.id));
      }
      assert ts[|ts|..] == [];
      entries := entries[entryIndex := entries[entryIndex].(mappings := slots)];
      globalBitmap := mask;
      return Ok;
    }

    // The first pass of Assign: a simulated bitmap, no state change.
    method CheckAssign(entryIndex: nat, ts: seq<Tuple>) returns (r: Option<Word>)
      requires Valid() && entryIndex < MAX_SERVICES
      ensures AssignCheck(entries[entryIndex].mappings, BitSet(globalBitmap), ts) ==
              if r.Some? then Some(BitSet(r.value)) else None
    {
      var slots := entries[entryIndex].mappings;
      var sim: Word := globalBitmap;
      ghost var verdict := AssignCheck(slots, BitSet(sim), ts);
      for i := 0 to |ts|
        invariant verdict == AssignCheck(slots, BitSet(sim), ts[i..])
      {
        var t := ts[i];
        assert ts[i..][0] == t && ts[i..][1..] == ts[i + 1..];
        var found := FindCookie(slots, t.cookie);
        if found.None? {
          return None;
        }
        var oldId := slots[found.value].id;
        if NfyBitmask(oldId).Some? {
          ClearBit(sim, oldId);
          sim := AndNot(sim, Bit(oldId));
        }
        if NfyBitmask(t.id).None? {
          return None;
        }
        TestBit(sim, t.id);
        SetBit(sim, t.id);
        if And(sim, Bit(t.id)) != 0 {
          return None;
        }
        sim := Or(sim, Bit(t.id));
      }
      assert ts[|ts|..] == [];
      return Some(sim);
    }

    // Entry `e` of `table` with its slots replaced.
    static function WithSlots(table: seq<Entry>, e: nat, slots: seq<Mapping>): seq<Entry>
      requires e < |table|
    {
      table[e := table[e].(mappings := slots)]
    }

    method WriteSlot(entryIndex: nat, k: nat, m: Mapping)
      requires Valid() && entryIndex < MAX_SERVICES && k < MAX_MAPPINGS && m.id < WIDTH
      modifies this`entries
      ensures Valid()
      ensures entries == WithSlots(old(entries), entryIndex, old(entries)[entryIndex].mappings[k := m])
    {
      var entry := entries[entryIndex];
      entries := entries[entryIndex := entry.(mappings := entry.mappings[k := m])];
    }

    method AssignMappings(entryIndex: nat, req: Request) returns (code: ErrorCode)
      requires Valid() && entryIndex < MAX_SERVICES
      modifies this
      ensures Valid()
      ensures Committed(entryIndex, Reassign, req.srcId, Tuples(req), code)
    {
      var ts := Tuples(req);
      ghost var base := entries[entryIndex].mappings;
      var sim := CheckAssign(entryIndex, ts);
      if sim.None? {
        return InvalidParameters;
      }
      CheckedAreFound(base, BitSet(globalBitmap), ts);
      CheckedFit(base, BitSet(globalBitmap), ts);
      ghost var applied := AssignApply(base, ts);
      ghost var before := entries;
      assert ts[0..] == ts;
      for i := 0 to |ts|
        invariant Valid() && globalBitmap == old(globalBitmap)
        invariant entries == WithSlots(before, entryIndex, entries[entryIndex].mappings)
        invariant AllFound(entries[entryIndex].mappings, ts[i..])
        invariant applied == AssignApply(entries[entryIndex].mappings, ts[i..])
      {
        var t := ts[i];
        assert ts[i..][0] == t && ts[i..][1..] == ts[i + 1..];
        var slots := entries[entryIndex].mappings;
        var k := FindCookie(slots, t.cookie).value;
        var m := slots[k].(id := t.id, ntype := t.ntype);
        AllFoundKept(slots, k, m, ts[i..]);
        WriteSlot(entryIndex, k, m);
      }
      assert ts[|ts|..] == [];
      globalBitmap := sim.value;
      return Ok;
    }

    // The first pass of Unassign.
    method CheckFound(entryIndex: nat, ts: seq<Tuple>) returns (ok: bool)
      requires Valid() && entryIndex < MAX_SERVICES
      ensures ok <==> AllFound(entries[entryIndex].mappings, ts)
    {
      for i := 0 to |ts|
        invariant AllFound(entries[entryIndex].mappings, ts[..i])
      {
        if FindCookie(entries[entryIndex].mappings, ts[i].cookie).None? {
          return false;
        }
      }
      assert ts[..|ts|] == ts;
      return true;
    }

    method UnassignMappings(entryIndex: nat, req: Request) returns (code: ErrorCode)
      requires Valid() && entryIndex < MAX_SERVICES
      modifies this
      ensures Valid()
      ensures Committed(entryIndex, Clear, req.srcId, Tuples(req), code)
    {
      var ts := Tuples(req);
      var found := CheckFound(entryIndex, ts);
      if !found {
        return InvalidParameters;
      }
      ghost var before := entries;
      ghost var applied := UnassignApply(Table(entries[entryIndex].mappings, BitSet(globalBitmap)), ts);
      var newBitmap: Word := globalBitmap;
      assert ts[0..] == ts;
      for i := 0 to |ts|
        invariant Valid() && globalBitmap == old(globalBitmap)
        invariant entries == WithSlots(before, entryIndex, entries[entryIndex].mappings)
        invariant AllFound(entries[entryIndex].mappings, ts[i..])
        invariant applied == UnassignApply(Table(entries[entryIndex].mappings, BitSet(newBitmap)), ts[i..])
      {
        var t := ts[i];
        assert ts[i..][0] == t && ts[i..][1..] == ts[i + 1..];
        var slots := entries[entryIndex].mappings;
        var k := FindCookie(slots, t.cookie).value;
        if NfyBitmask(slots[k].id).Some? {
          ClearBit(newBitmap, slots[k].id);
          newBitmap := AndNot(newBitmap, Bit(slots[k].id));
        }
        var m := slots[k].(id := 0, ntype := Global);
        AllFoundKept(slots, k, m, ts[i..]);
        WriteSlot(entryIndex, k, m);
      }
      assert ts[|ts|..] == [];
      globalBitmap := newBitmap;
      return Ok;
    }

    // Setup and Add.
    method HandleRegister(req: Request) returns (code: ErrorCode)
      requires Valid()
      modifies this
      ensures Valid()
      ensures (Contents(), code) == Handle(old(Contents()), Setup, req)
      ensures (Contents(), code) == Handle(old(Contents()), Add, req)
    {
      if !(1 <= req.count <= MAX_TUPLES) {
        return InvalidParameters;
      }
      var entry := FindOrCreateEntry(req.receiverUuid);
      if entry.None? {
        return NoMemory;
      }
      code := RegisterMapping(entry.value, req);
    }

    // Destroy, Remove, Assign and Unassign: the receiver must be known.
    method HandleKnown(msg: Message, req: Request) returns (code: ErrorCode)
      requires Valid() && KindOf(msg) != Register
      modifies this
      ensures Valid()
      ensures (Contents(), code) == Handle(old(Contents()), msg, req)
    {
      var entry := FindEntry(entries, req.receiverUuid);
      if entry.None? {
        return InvalidParameters;
      }
      match msg
      case Destroy => code := UnregisterMapping(entry.value, req);
      case Remove => code := UnregisterMapping(entry.value, req);
      case Assign => code := AssignMappings(entry.value, req);
      case Unassign => code := UnassignMappings(entry.value, req);
    }

    /** One direct request. */
    method FfaMsgSendDirectReq2(req: Request) returns (reply: Option<ErrorCode>)
      requires Valid()
      modifies this
      ensures Valid()
      ensures (Contents(), reply) == Step(old(Contents()), req)
    {
      var id := MessageOf(req.msgInfo);
      if id.None? {
        return None;
      }
      var code: ErrorCode;
      match id.value {
        case Setup => code := HandleRegister(req);
        case Add => code := HandleRegister(req);
        case _ => code := HandleKnown(id.value, req);
      }
      return Some(code);
    }
  }
}
