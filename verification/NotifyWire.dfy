/** Notify requests in the payload registers of a direct message. */
module NotifyWire {
  import opened Outcomes
  import opened Words
  import opened NotifySpec
  import Ffa

  /** Cookie in the upper half, id in bits 23 to 31, type in bit 0. */
  function ExtractTuple(value: U64): Tuple {
    Tuple(value / 0x1_0000_0000, value / 0x80_0000 % 0x200, if value % 2 == 1 then PerVcpu else Global)
  }

  function PackTuple(t: Tuple): U64
    requires t.id < 0x200
  {
    t.cookie as nat * 0x1_0000_0000 + t.id as nat * 0x80_0000 + if t.ntype == PerVcpu then 1 else 0
  }

  lemma ExtractPacked(t: Tuple)
    requires t.id < 0x200
    ensures ExtractTuple(PackTuple(t)) == t
  {
    var bit := if t.ntype == PerVcpu then 1 else 0;
    var value: nat := PackTuple(t);
    var high := t.cookie as nat * 0x200 + t.id;
    assert value == high * 0x80_0000 + bit;
    assert value / 0x80_0000 == high && value % 2 == bit;
    assert value / 0x1_0000_0000 == high / 0x200;
  }

  /** Two registers mean the same tuple exactly when they differ at most in bits 1 to 22. */
  lemma SameTupleIff(a: U64, b: U64)
    ensures ExtractTuple(a) == ExtractTuple(b) <==> a / 0x80_0000 == b / 0x80_0000 && a % 2 == b % 2
  {
    assert a / 0x80_0000 == a / 0x1_0000_0000 * 0x200 + a / 0x80_0000 % 0x200;
    assert b / 0x80_0000 == b / 0x1_0000_0000 * 0x200 + b / 0x80_0000 % 0x200;
  }

  const WORD: nat := 0x1_0000_0000_0000_0000

  function WordPair(high: U64, low: U64): U128 {
    high as nat * WORD + low
  }

  const PADDING: Tuple := Tuple(0, 0, Global)

  /** The tuple count: nine bits of a register, and at most seven. */
  function CountOf(value: U64): (n: U8)
    ensures n <= MAX_TUPLES
  {
    if value % 0x200 < MAX_TUPLES then value % 0x200 else MAX_TUPLES
  }

  function DecodeTuples(payload: seq<U8>, count: nat): (ts: seq<Tuple>)
    requires |payload| == Ffa.PAYLOAD_BYTES && count <= MAX_TUPLES
    ensures |ts| == MAX_TUPLES
  {
    seq(MAX_TUPLES, i requires 0 <= i < MAX_TUPLES =>
      if i < count then ExtractTuple(RegisterAt(payload, 7 + i)) else PADDING)
  }

  /** The request in a message: sender and receiver in two registers each, low half first. */
  function DecodeRequest(m: Ffa.DirectMessage): Request
    requires Ffa.WellFormed(m)
  {
    var p := m.payload;
    var count := CountOf(RegisterAt(p, 6));
    Request(m.sourceId,
            WordPair(RegisterAt(p, 2), RegisterAt(p, 1)),
            WordPair(RegisterAt(p, 4), RegisterAt(p, 3)),
            RegisterAt(p, 5),
            count,
            DecodeTuples(p, count))
  }

  /** Seven tuples, ids of nine bits, and padding past the count. */
  predicate Sendable(req: Request) {
    && req.count <= MAX_TUPLES
    && |req.notifications| == MAX_TUPLES
    && (forall i | 0 <= i < MAX_TUPLES :: req.notifications[i].id < 0x200)
    && (forall i | req.count <= i < MAX_TUPLES :: req.notifications[i] == PADDING)
  }

  /** A request as a sender lays it out. */
  function RequestRegisters(req: Request): (regs: seq<U64>)
    requires Sendable(req)
    ensures |regs| == 14
  {
    [0,
     req.senderUuid % WORD, req.senderUuid / WORD,
     req.receiverUuid % WORD, req.receiverUuid / WORD,
     req.msgInfo,
     req.count]
    + seq(MAX_TUPLES, i requires 0 <= i < MAX_TUPLES => PackTuple(req.notifications[i]))
  }

  lemma RegisterOf(regs: seq<U64>, i: nat)
    requires i < |regs|
    ensures RegisterAt(BytesOf(regs), i) == regs[i]
  {
    PackUnpacked(regs);
    RegisterAtIndex(BytesOf(regs), i);
  }

  // The registers in front of the tuples, as the accessor reads them.
  lemma HeadRegisters(req: Request)
    requires Sendable(req)
    ensures var p := BytesOf(RequestRegisters(req));
            && RegisterAt(p, 1) == req.senderUuid % WORD && RegisterAt(p, 2) == req.senderUuid / WORD
            && RegisterAt(p, 3) == req.receiverUuid % WORD && RegisterAt(p, 4) == req.receiverUuid / WORD
            && RegisterAt(p, 5) == req.msgInfo && RegisterAt(p, 6) == req.count
  {
    var regs := RequestRegisters(req);
    RegisterOf(regs, 1);
    RegisterOf(regs, 2);
    RegisterOf(regs, 3);
    RegisterOf(regs, 4);
    RegisterOf(regs, 5);
    RegisterOf(regs, 6);
  }

  lemma WordsRejoin(uuid: U128)
    ensures WordPair(uuid / WORD, uuid % WORD) == uuid
  {
  }

  lemma TupleRegister(req: Request, i: nat)
    requires Sendable(req) && i < MAX_TUPLES
    ensures RegisterAt(BytesOf(RequestRegisters(req)), 7 + i) == PackTuple(req.notifications[i])
  {
    RegisterOf(RequestRegisters(req), 7 + i);
  }

  lemma TuplesRoundTrip(req: Request)
    requires Sendable(req)
    ensures DecodeTuples(BytesOf(RequestRegisters(req)), req.count) == req.notifications
  {
    var decoded := DecodeTuples(BytesOf(RequestRegisters(req)), req.count);
    forall i | 0 <= i < MAX_TUPLES
      ensures decoded[i] == req.notifications[i]
    {
      TupleRegister(req, i);
      ExtractPacked(req.notifications[i]);
    }
  }

  /** Every sendable request arrives as it was sent. */
  lemma RequestRoundTrip(req: Request, destination: U16, uuid: seq<U8>)
    requires Sendable(req) && |uuid| == Ffa.UUID_BYTES
    ensures var m := Ffa.DirectMessage(req.srcId, destination, uuid, BytesOf(RequestRegisters(req)));
            Ffa.WellFormed(m) && DecodeRequest(m) == req
  {
    assert CountOf(req.count) == req.count;
    HeadRegisters(req);
    TuplesRoundTrip(req);
    WordsRejoin(req.senderUuid);
    WordsRejoin(req.receiverUuid);
  }

  lemma Distribute(a: nat, p: nat, b: nat)
    ensures 0x100 * (a + p * b) == 0x100 * a + (0x100 * p) * b
  {
  }

  lemma {:induction false} FromLeSplit(bytes: seq<U8>, n: nat)
    requires n <= |bytes|
    ensures FromLe(bytes) == FromLe(bytes[..n]) + Pow256(n) * FromLe(bytes[n..])
    decreases n
  {
    if n > 0 {
      var rest := bytes[1..];
      FromLeSplit(rest, n - 1);
      assert bytes[..n][1..] == rest[..n - 1] && rest[n - 1..] == bytes[n..];
      Distribute(FromLe(rest[..n - 1]), Pow256(n - 1), FromLe(bytes[n..]));
    } else {
      assert bytes[..0] == [] && bytes[0..] == bytes;
    }
  }

  // Two registers in a row, the lower one first, are sixteen bytes as one number.
  lemma PairOfBytes(bytes: seq<U8>)
    requires |bytes| == 16
    ensures WordPair(Le64(bytes[8..]), Le64(bytes[..8])) == FromLe(bytes)
  {
    FromLeSplit(bytes, 8);
    EightBytes();
  }

  /**
   * Where a request stands in its payload: sender in bytes 8 to 23, receiver in 24
   * to 39, message in 40 to 47, count in the nine lowest bits of byte 48 and on and
   * at most seven, and from byte 56 on eight bytes a tuple. All numbers start with
   * their lowest byte.
   */
  lemma RequestLayout(m: Ffa.DirectMessage, i: nat)
    requires Ffa.WellFormed(m) && i < 7
    ensures var req, p := DecodeRequest(m), m.payload;
            && req.srcId == m.sourceId
            && req.senderUuid == FromLe(p[8..24]) && req.receiverUuid == FromLe(p[24..40])
            && req.msgInfo == FromLe(p[40..48])
            && req.count == (if FromLe(p[48..56]) % 0x200 < 7 then FromLe(p[48..56]) % 0x200 else 7)
            && |req.notifications| == 7
            && (i >= req.count ==> req.notifications[i] == Tuple(0, 0, Global))
            && (i < req.count ==>
                  var t, word := req.notifications[i], FromLe(p[56 + 8 * i..64 + 8 * i]);
                  && t.cookie == word / 0x1_0000_0000 && t.id == word / 0x80_0000 % 0x200
                  && t.ntype == if word % 2 == 1 then PerVcpu else Global)
  {
    var p := m.payload;
    PairOfBytes(p[8..24]);
    PairOfBytes(p[24..40]);
    assert p[8..24][..8] == p[8..16] && p[8..24][8..] == p[16..24];
    assert p[24..40][..8] == p[24..32] && p[24..40][8..] == p[32..40];
    var word: U64 := Le64(p[56 + 8 * i..64 + 8 * i]);
  }
}
