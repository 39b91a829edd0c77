/**
 * FF-A calls as registers: the generic parameter block, console logging in
 * chunks, and direct messages with their UUID and payload.
 */
module Ffa {
  import opened Outcomes
  import opened Words

  datatype FfaError = TooManySmcParams | CallRefused

  const PARAM_COUNT: nat := 17

  /** The parameter registers x1 to x17 of a call. */
  type Params = regs: seq<U64> | |regs| == PARAM_COUNT witness ZeroRegisters(PARAM_COUNT)

  function ZeroRegisters(n: nat): (r: seq<U64>)
    ensures |r| == n && forall i | 0 <= i < n :: r[i] == 0
  {
    seq(n, i => 0)
  }

  /** x1 to x17 from at most seventeen values; missing ones are zero. */
  function TryFromIter(values: seq<U64>): (r: Result<Params, FfaError>)
    ensures r.Success? <==> |values| <= PARAM_COUNT
    ensures r.Success? ==> r.value[..|values|] == values
    ensures r.Success? ==> forall i | |values| <= i < PARAM_COUNT :: r.value[i] == 0
    ensures r.Failure? ==> r.error == TooManySmcParams
  {
    if |values| > PARAM_COUNT then Failure(TooManySmcParams)
    else Success(values + ZeroRegisters(PARAM_COUNT - |values|))
  }

  // --- Console ------------------------------------------------------------------------

  const MAX_CHARS: nat := 128

  /** One console call: the number of bytes, then the bytes. */
  function ConsoleParams(bytes: seq<U8>): Result<Params, FfaError>
    requires |bytes| <= MAX_CHARS
  {
    TryFromIter([|bytes|] + RegistersOf(bytes))
  }

  /** What the receiver of a console call reads. */
  function ConsoleText(params: Params): seq<U8> {
    var bytes := BytesOf(params[1..]);
    if params[0] <= |bytes| then bytes[..params[0]] else bytes
  }

  lemma {:induction false} BytesOfAppend(a: seq<U64>, b: seq<U64>)
    ensures BytesOf(a + b) == BytesOf(a) + BytesOf(b)
  {
    if a == [] {
      assert a + b == b;
    } else {
      assert (a + b)[1..] == a[1..] + b;
      BytesOfAppend(a[1..], b);
    }
  }

  /** A chunk always fits its call, and the receiver reads exactly the chunk. */
  lemma ConsoleRoundTrip(bytes: seq<U8>)
    requires |bytes| <= MAX_CHARS
    ensures ConsoleParams(bytes).Success?
    ensures ConsoleText(ConsoleParams(bytes).value) == bytes
    ensures ConsoleParams(bytes).value[0] == |bytes|
  {
    var regs := RegistersOf(bytes);
    var params := ConsoleParams(bytes).value;
    var rest := ZeroRegisters(PARAM_COUNT - 1 - |regs|);
    assert params[1..] == regs + rest;
    UnpackPacked(bytes);
    BytesOfAppend(regs, rest);
    assert BytesOf(params[1..])[..|bytes|] == bytes;
  }

  /** The text of a series of calls. */
  function TextOf(calls: seq<Params>): seq<U8> {
    if calls == [] then [] else TextOf(calls[..|calls| - 1]) + ConsoleText(calls[|calls| - 1])
  }

  function Min(a: nat, b: nat): nat {
    if a < b then a else b
  }

  /** How many calls `n` bytes take. */
  function Chunks(n: nat): nat {
    if n == 0 then 0 else 1 + Chunks(n - Min(MAX_CHARS, n))
  }

  lemma {:induction false} ChunksRoundUp(n: nat)
    ensures Chunks(n) == (n + 127) / 128
  {
    if n > 128 {
      ChunksRoundUp(n - 128);
    }
  }

  lemma TextOfPush(calls: seq<Params>, chunk: seq<U8>)
    requires |chunk| <= MAX_CHARS
    ensures ConsoleParams(chunk).Success? && ConsoleParams(chunk).value[0] == |chunk|
    ensures TextOf(calls + [ConsoleParams(chunk).value]) == TextOf(calls) + chunk
  {
    ConsoleRoundTrip(chunk);
    assert (calls + [ConsoleParams(chunk).value])[..|calls|] == calls;
  }

  /** Every call carries 1 to 128 bytes. */
  predicate NoneEmpty(calls: seq<Params>) {
    forall i | 0 <= i < |calls| :: 1 <= calls[i][0] <= MAX_CHARS
  }

  lemma NoneEmptyPush(calls: seq<Params>, call: Params)
    requires NoneEmpty(calls) && 1 <= call[0] <= MAX_CHARS
    ensures NoneEmpty(calls + [call])
  {
  }

  lemma SplitAt(done: seq<U8>, s: seq<U8>, n: nat)
    requires n <= |s|
    ensures (done + s[..n]) + s[n..] == done + s
  {
  }

  /** Makes the call for the next chunk of the text. */
  method NextCall(s: seq<U8>, calls: seq<Params>) returns (more: seq<Params>, rest: seq<U8>)
    requires s != [] && NoneEmpty(calls)
    ensures |more| == |calls| + 1 && NoneEmpty(more)
    ensures TextOf(more) + rest == TextOf(calls) + s
    ensures |rest| == |s| - Min(MAX_CHARS, |s|)
    ensures more[..|calls|] == calls && more[|calls|][0] == Min(MAX_CHARS, |s|)
  {
    var n := Min(MAX_CHARS, |s|);
    TextOfPush(calls, s[..n]);
    more := calls + [ConsoleParams(s[..n]).value];
    rest := s[n..];
    NoneEmptyPush(calls, ConsoleParams(s[..n]).value);
    SplitAt(TextOf(calls), s, n);
  }

  lemma FrontOf(front: seq<U8>, rest: seq<U8>)
    ensures front <= front + rest && (rest == [] ==> front + rest == front) && (front == [] ==> front + rest == rest)
  {
  }

  // The first `n` calls are answered well.
  predicate Accepted(accepts: seq<bool>, n: nat) {
    n <= |accepts| && forall i | 0 <= i < n :: accepts[i]
  }

  lemma AcceptedStep(accepts: seq<bool>, k: nat, n: nat)
    requires Accepted(accepts, k) && k < n <= |accepts|
    ensures if accepts[k] then Accepted(accepts, k + 1) else !Accepted(accepts, n)
  {
  }

  /**
   * Writing a string. `accepts[k]` says whether the `k`th call is answered well;
   * writing stops after the first that is not. The calls made carry the string
   * from its start, in chunks of 128 bytes and a shorter last one.
   */
  method WriteStr(text: seq<U8>, accepts: seq<bool>) returns (calls: seq<Params>, ok: bool)
    requires Chunks(|text|) <= |accepts|
    ensures NoneEmpty(calls) && TextOf(calls) <= text && |calls| <= Chunks(|text|)
    ensures ok <==> Accepted(accepts, Chunks(|text|))
    ensures ok ==> TextOf(calls) == text && |calls| == Chunks(|text|)
    ensures !ok ==> |calls| > 0 && Accepted(accepts, |calls| - 1) && !accepts[|calls| - 1]
  {
    calls := [];
    var s := text;
    FrontOf([], text);
    while s != []
      invariant NoneEmpty(calls) && TextOf(calls) + s == text
      invariant |calls| + Chunks(|s|) == Chunks(|text|)
      invariant Accepted(accepts, |calls|)
      decreases |s|
    {
      AcceptedStep(accepts, |calls|, Chunks(|text|));
      calls, s := NextCall(s, calls);
      FrontOf(TextOf(calls), s);
      if !accepts[|calls| - 1] {
        return calls, false;
      }
    }
    FrontOf(TextOf(calls), s);
    return calls, true;
  }

  // --- Direct messages ----------------------------------------------------------------

  const UUID_BYTES: nat := 16
  const PAYLOAD_BYTES: nat := 112

  datatype DirectMessage = DirectMessage(
    sourceId: U16,
    destinationId: U16,
    uuid: seq<U8>,
    payload: seq<U8>)

  predicate WellFormed(m: DirectMessage) {
    |m.uuid| == UUID_BYTES && |m.payload| == PAYLOAD_BYTES
  }

  /** The payload of a message, from at most 112 bytes; the rest stays zero. */
  method PayloadFromIter(bytes: seq<U8>) returns (payload: seq<U8>)
    requires |bytes| <= PAYLOAD_BYTES
    ensures payload == bytes + Zeros(PAYLOAD_BYTES - |bytes|)
  {
    var buffer := new U8[PAYLOAD_BYTES](_ => 0);
    for i := 0 to |bytes|
      invariant buffer[..i] == bytes[..i]
      invariant forall j | i <= j < PAYLOAD_BYTES :: buffer[j] == 0
    {
      buffer[i] := bytes[i];
    }
    payload := buffer[..];
    assert payload[..|bytes|] == bytes;
  }

  /** On a little-endian machine, conversion to and from big-endian swaps the bytes. */
  function SwapBytes(x: U64): U64 {
    Be64(ToLe(x, 8))
  }

  lemma SwapTwice(x: U64)
    ensures SwapBytes(SwapBytes(x)) == x
  {
    LeInverseBytes(Reverse(ToLe(x, 8)));
    ReverseTwice(ToLe(x, 8));
    BeOfReverse(Reverse(ToLe(x, 8)));
    BeOfReverse(ToLe(x, 8));
    Le64Inverse(x);
  }

  /** Destination below, source above. */
  function IdsWord(source: U16, destination: U16): U64 {
    source as nat * 0x1_0000 + destination
  }

  /** What is left above the destination, cut to 16 bits. */
  function SourceOf(ids: U64): U16 {
    ids / 0x1_0000 % 0x1_0000
  }

  function DestinationOf(ids: U64): U16 {
    ids % 0x1_0000
  }

  function Encode(m: DirectMessage): Result<Params, FfaError>
    requires WellFormed(m)
  {
    TryFromIter(
      [IdsWord(m.sourceId, m.destinationId),
       SwapBytes(Be64(m.uuid[..8])),
       SwapBytes(Be64(m.uuid[8..]))]
      + RegistersOf(m.payload))
  }

  function Decode(params: Params): DirectMessage {
    DirectMessage(
      SourceOf(params[0]),
      DestinationOf(params[0]),
      ToBe(SwapBytes(params[1]), 8) + ToBe(SwapBytes(params[2]), 8),
      BytesOf(params[3..]))
  }

  lemma UuidHalfInverse(bytes: seq<U8>)
    requires |bytes| == 8
    ensures ToBe(SwapBytes(SwapBytes(Be64(bytes))), 8) == bytes
  {
    Be64InverseBytes(bytes);
    SwapTwice(Be64(bytes));
  }

  lemma UuidWordInverse(x: U64)
    ensures SwapBytes(Be64(ToBe(SwapBytes(x), 8))) == x
  {
    Be64Inverse(SwapBytes(x));
    SwapTwice(x);
  }

  lemma TryFromFull(values: seq<U64>)
    requires |values| == PARAM_COUNT
    ensures TryFromIter(values) == Success(values)
  {
    assert ZeroRegisters(0) == [];
    assert values + [] == values;
  }

  // The registers of an encoded message.
  function Fields(m: DirectMessage): (r: seq<U64>)
    requires WellFormed(m)
    ensures |r| == PARAM_COUNT
  {
    [IdsWord(m.sourceId, m.destinationId),
     SwapBytes(Be64(m.uuid[..8])),
     SwapBytes(Be64(m.uuid[8..]))] + RegistersOf(m.payload)
  }

  lemma EncodedFields(m: DirectMessage)
    requires WellFormed(m)
    ensures Encode(m) == Success(Fields(m))
  {
    TryFromFull(Fields(m));
  }

  lemma DecodeFields(ids: U64, high: U64, low: U64, payload: seq<U64>)
    requires |payload| == PARAM_COUNT - 3
    ensures Decode([ids, high, low] + payload) ==
            DirectMessage(SourceOf(ids), DestinationOf(ids),
                          ToBe(SwapBytes(high), 8) + ToBe(SwapBytes(low), 8), BytesOf(payload))
  {
    assert ([ids, high, low] + payload)[3..] == payload;
  }

  lemma UuidInverse(uuid: seq<U8>)
    requires |uuid| == UUID_BYTES
    ensures ToBe(SwapBytes(SwapBytes(Be64(uuid[..8]))), 8) + ToBe(SwapBytes(SwapBytes(Be64(uuid[8..]))), 8) == uuid
  {
    UuidHalfInverse(uuid[..8]);
    UuidHalfInverse(uuid[8..]);
    assert uuid[..8] + uuid[8..] == uuid;
  }

  lemma IdsInverse(source: U16, destination: U16)
    ensures var ids := IdsWord(source, destination);
            SourceOf(ids) == source && DestinationOf(ids) == destination
  {
  }

  /** Every message survives encoding and decoding. */
  lemma DecodeEncoded(m: DirectMessage)
    requires WellFormed(m)
    ensures Encode(m).Success? && Decode(Encode(m).value) == m
  {
    EncodedFields(m);
    var high, low := SwapBytes(Be64(m.uuid[..8])), SwapBytes(Be64(m.uuid[8..]));
    DecodeFields(IdsWord(m.sourceId, m.destinationId), high, low, RegistersOf(m.payload));
    UuidInverse(m.uuid);
    UnpackExact(m.payload);
    IdsInverse(m.sourceId, m.destinationId);
  }

  lemma UuidOfParams(params: Params)
    ensures WellFormed(Decode(params))
    ensures Decode(params).uuid[..8] == ToBe(SwapBytes(params[1]), 8)
    ensures Decode(params).uuid[8..] == ToBe(SwapBytes(params[2]), 8)
  {
  }

  // The ids word, taken apart and put together again.
  function Rejoined(x: U64): U64 {
    IdsWord(SourceOf(x), DestinationOf(x))
  }

  lemma RejoinedIff(x: U64)
    ensures Rejoined(x) == x <==> x < 0x1_0000_0000
  {
  }

  lemma SameTail(head: U64, params: Params)
    ensures [head, params[1], params[2]] + params[3..] == params <==> head == params[0]
  {
    assert params == [params[0], params[1], params[2]] + params[3..];
    assert ([head, params[1], params[2]] + params[3..])[0] == head;
  }

  /** Registers survive decoding and encoding exactly when the upper half of x1 is clear. */
  lemma EncodeDecodedIff(params: Params)
    ensures WellFormed(Decode(params))
    ensures Encode(Decode(params)) == Success(params) <==> params[0] < 0x1_0000_0000
  {
    UuidOfParams(params);
    EncodedFields(Decode(params));
    UuidWordInverse(params[1]);
    UuidWordInverse(params[2]);
    PackUnpacked(params[3..]);
    RejoinedIff(params[0]);
    SameTail(Rejoined(params[0]), params);
  }

  // --- Layouts -------------------------------------------------------------------------

  /** A console call: the length, then the bytes eight to a register from the lowest up, then zeros. */
  lemma ConsoleLayout(bytes: seq<U8>, k: nat, j: nat)
    requires |bytes| <= 128 && k < 16 && j < 8
    ensures ConsoleParams(bytes).Success? && |ConsoleParams(bytes).value| == 17
    ensures var regs := ConsoleParams(bytes).value;
            regs[0] == |bytes| && ToLe(regs[1 + k], 8)[j] == if 8 * k + j < |bytes| then bytes[8 * k + j] else 0
  {
    var packed := RegistersOf(bytes);
    var regs := ConsoleParams(bytes).value;
    if k < |packed| {
      RegisterLayout(bytes, k);
      assert regs[1 + k] == packed[k];
    } else {
      assert regs[1 + k] == 0;
      RegisterBytes(0);
    }
  }

  // Swapping the bytes of a big-endian word lays its bytes out in order.
  lemma SwappedLayout(bytes: seq<U8>)
    requires |bytes| == 8
    ensures ToLe(SwapBytes(Be64(bytes)), 8) == bytes
  {
    BeIsReversedLe(Be64(bytes), 8);
    Be64InverseBytes(bytes);
    var le := ToLe(Be64(bytes), 8);
    ReverseTwice(le);
    BeOfReverse(Reverse(le));
    Le64InverseBytes(bytes);
  }

  lemma SwappedIsLe(x: U64)
    ensures ToBe(SwapBytes(x), 8) == ToLe(x, 8)
  {
    Be64InverseBytes(ToLe(x, 8));
  }

  lemma PayloadLayout(payload: seq<U8>, i: nat)
    requires |payload| == 112 && i < 14
    ensures ToLe(RegistersOf(payload)[i], 8) == payload[8 * i..8 * i + 8]
  {
    RegisterLayout(payload, i);
    var bytes := ToLe(RegistersOf(payload)[i], 8);
    assert forall j | 0 <= j < 8 :: bytes[j] == payload[8 * i..8 * i + 8][j];
  }

  /**
   * The registers of a message: source above destination in x1, the UUID's bytes
   * in order in x2 and x3, the payload's bytes in order from x4 on, each register
   * from its lowest byte up.
   */
  lemma EncodedLayout(m: DirectMessage, i: nat)
    requires WellFormed(m) && i < 14
    ensures Encode(m).Success? && |Encode(m).value| == 17
    ensures var regs := Encode(m).value;
            && regs[0] == m.sourceId as nat * 0x1_0000 + m.destinationId as nat
            && ToLe(regs[1], 8) + ToLe(regs[2], 8) == m.uuid
            && ToLe(regs[3 + i], 8) == m.payload[8 * i..8 * i + 8]
  {
    EncodedFields(m);
    SwappedLayout(m.uuid[..8]);
    SwappedLayout(m.uuid[8..]);
    assert m.uuid[..8] + m.uuid[8..] == m.uuid;
    PayloadLayout(m.payload, i);
    assert Fields(m)[3 + i] == RegistersOf(m.payload)[i];
  }

  /** A message read from registers, by the same layout; of x1 the lower 32 bits. */
  lemma DecodedLayout(regs: Params, i: nat)
    requires i < 14
    ensures var m := Decode(regs);
            && m.sourceId == regs[0] / 0x1_0000 % 0x1_0000 && m.destinationId == regs[0] % 0x1_0000
            && m.uuid == ToLe(regs[1], 8) + ToLe(regs[2], 8)
            && |m.payload| == 112 && m.payload[8 * i..8 * i + 8] == ToLe(regs[3 + i], 8)
  {
    SwappedIsLe(regs[1]);
    SwappedIsLe(regs[2]);
    BytesLayout(regs[3..], i);
  }
}
