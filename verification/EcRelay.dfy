/**
 * The serial side of the EC relay: framed packets read off a byte stream, and
 * the ODP header in front of each message.
 */
module EcRelay {
  import opened Outcomes
  import opened Words

  datatype EcRelayError = TransportRead | TransportReadTimeout | MctpRecvIncomplete | BufferTooShort

  /** What the next read of one byte will give; a read past the end fails. */
  datatype Rx = Byte(byte: U8) | TimedOut | Broken

  const END_FLAG: U8 := 0x7E

  /** One packet off the front of the stream, and what remains of the stream. */
  function Receive(rx: seq<Rx>, capacity: nat): (Result<seq<U8>, EcRelayError>, seq<Rx>)
    decreases capacity
  {
    if capacity == 0 then (Failure(MctpRecvIncomplete), rx)
    else if rx == [] then (Failure(TransportRead), rx)
    else
      match rx[0]
      case TimedOut => (Failure(TransportReadTimeout), rx[1..])
      case Broken => (Failure(TransportRead), rx[1..])
      case Byte(byte) =>
        if byte == END_FLAG then (Success([byte]), rx[1..])
        else
          var (rest, last) := Receive(rx[1..], capacity - 1);
          match rest
          case Failure(error) => (Failure(error), last)
          case Success(bytes) => (Success([byte] + bytes), last)
  }

  /** What has arrived of a packet, whether or not receiving it succeeds. */
  function Arrived(rx: seq<Rx>, capacity: nat): (r: seq<U8>)
    ensures |r| <= capacity
    ensures Receive(rx, capacity).0.Success? ==> r == Receive(rx, capacity).0.value
    decreases capacity
  {
    if capacity == 0 || rx == [] || !rx[0].Byte? then []
    else if rx[0].byte == END_FLAG then [rx[0].byte]
    else [rx[0].byte] + Arrived(rx[1..], capacity - 1)
  }

  lemma StoreNext(done: seq<U8>, before: seq<U8>, byte: U8)
    requires |done| < |before|
    ensures (done + before[|done|..])[|done| := byte] == (done + [byte]) + before[|done| + 1..]
  {
  }

  /** What receiving a packet comes to: how it ends, the stream it leaves, and all that arrives. */
  datatype Reception = Reception(packet: Result<seq<U8>, EcRelayError>, rest: seq<Rx>, all: seq<U8>)

  // The same for a packet that is `done` bytes under way.
  function ReceptionOf(done: seq<U8>, rx: seq<Rx>, capacity: nat): Reception {
    Reception(InFront(done, Receive(rx, capacity).0), Receive(rx, capacity).1, done + Arrived(rx, capacity))
  }

  lemma ReceptionAtFirst(rx: seq<Rx>, capacity: nat)
    ensures ReceptionOf([], rx, capacity) ==
            Reception(Receive(rx, capacity).0, Receive(rx, capacity).1, Arrived(rx, capacity))
  {
    InFrontNone(Receive(rx, capacity).0);
    assert [] + Arrived(rx, capacity) == Arrived(rx, capacity);
  }

  lemma ReceptionAtNext(done: seq<U8>, rx: seq<Rx>, capacity: nat)
    ensures capacity == 0 ==> ReceptionOf(done, rx, capacity) == Reception(Failure(MctpRecvIncomplete), rx, done)
    ensures capacity > 0 && rx == [] ==> ReceptionOf(done, rx, capacity) == Reception(Failure(TransportRead), rx, done)
    ensures capacity > 0 && rx != [] ==>
              match rx[0]
              case TimedOut =>
                ReceptionOf(done, rx, capacity) == Reception(Failure(TransportReadTimeout), rx[1..], done)
              case Broken => ReceptionOf(done, rx, capacity) == Reception(Failure(TransportRead), rx[1..], done)
              case Byte(byte) =>
                if byte == END_FLAG
                then ReceptionOf(done, rx, capacity) == Reception(Success(done + [byte]), rx[1..], done + [byte])
                else ReceptionOf(done, rx, capacity) == ReceptionOf(done + [byte], rx[1..], capacity - 1)
  {
    assert done + [] == done;
    if capacity > 0 && rx != [] && rx[0].Byte? && rx[0].byte != END_FLAG {
      InFrontNext(done, rx[0].byte, Receive(rx[1..], capacity - 1).0);
      assert done + ([rx[0].byte] + Arrived(rx[1..], capacity - 1)) ==
             (done + [rx[0].byte]) + Arrived(rx[1..], capacity - 1);
    }
  }

  class MctpSerialTransport {
    var uart: seq<Rx>

    constructor (uart: seq<Rx>)
      ensures this.uart == uart
    {
      this.uart := uart;
    }

    method RecvFramedPacket(buf: array<U8>) returns (r: Result<nat, EcRelayError>)
      modifies this, buf
      ensures uart == Receive(old(uart), buf.Length).1
      ensures match Receive(old(uart), buf.Length).0
              case Failure(error) => r == Failure(error)
              case Success(frame) => r == Success(|frame|)
      ensures var all := Arrived(old(uart), buf.Length);
              buf[..] == all + old(buf[..])[|all|..]
    {
      ghost var goal := ReceptionOf([], uart, buf.Length);
      ghost var before := buf[..];
      ghost var done: seq<U8> := [];
      var filled := 0;
      ReceptionAtFirst(uart, buf.Length);
      while true
        invariant filled == |done| <= buf.Length && buf[..] == done + before[filled..]
        invariant goal == ReceptionOf(done, uart, buf.Length - filled)
        decreases buf.Length - filled
      {
        ReceptionAtNext(done, uart, buf.Length - filled);
        if filled >= buf.Length {
          return Failure(MctpRecvIncomplete);
        }
        if uart == [] {
          return Failure(TransportRead);
        }
        var rx := uart[0];
        uart := uart[1..];
        match rx {
          case TimedOut => return Failure(TransportReadTimeout);
          case Broken => return Failure(TransportRead);
          case Byte(byte) =>
            StoreNext(done, before, byte);
            buf[filled] := byte;
            done := done + [byte];
            filled := filled + 1;
            if byte == END_FLAG {
              return Success(filled);
            }
        }
      }
    }
  }

  // --- Framing --------------------------------------------------------------------------

  /** A frame ends in the flag, and holds it nowhere else. */
  predicate IsFrame(bytes: seq<U8>) {
    && bytes != []
    && bytes[|bytes| - 1] == 0x7E
    && forall i | 0 <= i < |bytes| - 1 :: bytes[i] != 0x7E
  }

  /** The bytes on the wire. */
  function Wire(bytes: seq<U8>): (rx: seq<Rx>)
    ensures |rx| == |bytes| && forall i | 0 <= i < |bytes| :: rx[i] == Byte(bytes[i])
  {
    seq(|bytes|, i requires 0 <= i < |bytes| => Byte(bytes[i]))
  }

  /** A frame that fits is received whole, and nothing beyond it is consumed. */
  lemma {:induction false} ReceiveFrame(frame: seq<U8>, rest: seq<Rx>, capacity: nat)
    requires IsFrame(frame) && |frame| <= capacity
    ensures Receive(Wire(frame) + rest, capacity) == (Success(frame), rest)
    decreases |frame|
  {
    var rx := Wire(frame) + rest;
    assert rx[0] == Byte(frame[0]);
    assert rx[1..] == Wire(frame[1..]) + rest;
    if |frame| == 1 {
      assert Wire(frame[1..]) == [];
      assert frame == [frame[0]];
    } else {
      assert frame[1..][|frame| - 2] == END_FLAG;
      ReceiveFrame(frame[1..], rest, capacity - 1);
      assert frame == [frame[0]] + frame[1..];
    }
  }

  /** Whatever is received is a frame that fits, and stood at the front of the stream. */
  lemma {:induction false} ReceivedIsFrame(rx: seq<Rx>, capacity: nat)
    requires Receive(rx, capacity).0.Success?
    ensures var (frame, last) := Receive(rx, capacity);
            IsFrame(frame.value) && |frame.value| <= capacity && rx == Wire(frame.value) + last
    decreases capacity
  {
    var byte := rx[0].byte;
    if byte != END_FLAG {
      ReceivedIsFrame(rx[1..], capacity - 1);
      var (rest, last) := Receive(rx[1..], capacity - 1);
      assert Wire([byte] + rest.value) == [Byte(byte)] + Wire(rest.value);
      assert rx == [rx[0]] + rx[1..];
    } else {
      assert Wire([byte]) == [Byte(byte)];
      assert rx == [rx[0]] + rx[1..];
    }
  }

  /** With no flag among the first bytes, exactly a bufferful is consumed and reported incomplete. */
  lemma {:induction false} NoFlag(bytes: seq<U8>, rest: seq<Rx>)
    requires forall i | 0 <= i < |bytes| :: bytes[i] != 0x7E
    ensures Receive(Wire(bytes) + rest, |bytes|) == (Failure(MctpRecvIncomplete), rest)
    decreases |bytes|
  {
    var rx := Wire(bytes) + rest;
    if bytes == [] {
      assert rx == rest;
    } else {
      assert rx[0] == Byte(bytes[0]);
      assert rx[1..] == Wire(bytes[1..]) + rest;
      NoFlag(bytes[1..], rest);
    }
  }

  function WireAll(frames: seq<seq<U8>>): seq<Rx> {
    if frames == [] then [] else Wire(frames[0]) + WireAll(frames[1..])
  }

  /** `n` packets in a row, stopping at the first failure. */
  function ReceiveMany(rx: seq<Rx>, capacity: nat, n: nat): (seq<seq<U8>>, seq<Rx>)
    decreases n
  {
    if n == 0 then ([], rx)
    else
      var (first, next) := Receive(rx, capacity);
      match first
      case Failure(_) => ([], next)
      case Success(frame) =>
        var (frames, last) := ReceiveMany(next, capacity, n - 1);
        ([frame] + frames, last)
  }

  /** Frames sent one after another are received one after another. */
  lemma {:induction false} FramesInOrder(frames: seq<seq<U8>>, rest: seq<Rx>, capacity: nat)
    requires forall i | 0 <= i < |frames| :: IsFrame(frames[i]) && |frames[i]| <= capacity
    ensures ReceiveMany(WireAll(frames) + rest, capacity, |frames|) == (frames, rest)
    decreases |frames|
  {
    if frames == [] {
      assert WireAll(frames) + rest == rest;
    } else {
      assert WireAll(frames) + rest == Wire(frames[0]) + (WireAll(frames[1..]) + rest);
      ReceiveFrame(frames[0], WireAll(frames[1..]) + rest, capacity);
      FramesInOrder(frames[1..], rest, capacity);
      assert frames == [frames[0]] + frames[1..];
    }
  }

  // --- ODP header -------------------------------------------------------------------------

  datatype OdpHeader = OdpHeader(isRequest: bool, serviceId: U8, isError: bool, messageId: U16)

  // The header word: request at bit 25, service at bits 16 to 23, message below bit 15.
  function HeaderWord(isRequest: bool, serviceId: U8, messageId: U16): U32 {
    (if isRequest then 0x200_0000 else 0) + serviceId as nat * 0x1_0000 + messageId as nat % 0x8000
  }

  function BuildOdpHeader(isRequest: bool, serviceId: U8, messageId: U16): (bytes: seq<U8>)
    ensures |bytes| == 4
  {
    ToBe(HeaderWord(isRequest, serviceId, messageId), 4)
  }

  function ParseWord(raw: nat): OdpHeader {
    OdpHeader(raw / 0x200_0000 % 2 == 1, raw / 0x1_0000 % 0x100, raw / 0x8000 % 2 == 1, raw % 0x8000)
  }

  function ParseOdpHeader(bytes: seq<U8>): Result<OdpHeader, EcRelayError> {
    if |bytes| < 4 then Failure(BufferTooShort) else Success(ParseWord(FromBe(bytes[..4])))
  }

  lemma FourBytes()
    ensures Pow256(4) == 0x1_0000_0000
  {
    assert Pow256(2) == 0x1_0000;
  }

  lemma WordParses(isRequest: bool, serviceId: U8, messageId: U16)
    ensures ParseWord(HeaderWord(isRequest, serviceId, messageId)) ==
            OdpHeader(isRequest, serviceId, false, messageId as nat % 0x8000)
  {
    var raw: nat := HeaderWord(isRequest, serviceId, messageId);
    var high: nat := (if isRequest then 0x200 else 0) + serviceId;
    var low := messageId as nat % 0x8000;
    assert raw == high * 0x1_0000 + low;
    assert raw / 0x1_0000 == high && raw % 0x1_0000 == low;
    assert raw / 0x8000 == 2 * high;
    assert raw / 0x200_0000 == high / 0x200;
  }

  /** A built header parses to what was asked for, the message id cut to 15 bits. */
  lemma ParseBuilt(isRequest: bool, serviceId: U8, messageId: U16, rest: seq<U8>)
    ensures ParseOdpHeader(BuildOdpHeader(isRequest, serviceId, messageId) + rest) ==
            Success(OdpHeader(isRequest, serviceId, false, messageId as nat % 0x8000))
  {
    FourBytes();
    BeInverse(HeaderWord(isRequest, serviceId, messageId), 4);
    WordParses(isRequest, serviceId, messageId);
    var bytes := BuildOdpHeader(isRequest, serviceId, messageId);
    assert (bytes + rest)[..4] == bytes;
  }

  lemma WordHalves(raw: nat, high: nat, low: nat)
    requires raw == high * 0x1_0000 + low && low < 0x1_0000
    ensures ParseWord(raw) == OdpHeader(high / 0x200 % 2 == 1, high % 0x100, low / 0x8000 == 1, low % 0x8000)
    ensures raw / 0x400_0000 == high / 0x400 && raw / 0x100_0000 == high / 0x100
  {
    assert raw / 0x1_0000 == high;
    assert raw / 0x8000 == 2 * high + low / 0x8000;
  }

  lemma SameHalves(a: nat, b: nat, high: nat, low: nat)
    requires b < 0x1_0000 && low < 0x1_0000
    ensures a * 0x1_0000 + b == high * 0x1_0000 + low <==> a == high && b == low
  {
  }

  // The upper half: request bit, unused bit, service id.
  lemma HighIff(high: nat)
    ensures (if high / 0x200 % 2 == 1 then 0x200 else 0) + high % 0x100 == high <==>
            high / 0x400 == 0 && high / 0x100 % 2 == 0
  {
  }

  lemma WordIff(raw: U32)
    ensures var h := ParseWord(raw);
            HeaderWord(h.isRequest, h.serviceId, h.messageId) == raw <==>
            raw / 0x400_0000 == 0 && raw / 0x100_0000 % 2 == 0 && !h.isError
  {
    var high: nat, low: nat := raw / 0x1_0000, raw % 0x1_0000;
    WordHalves(raw, high, low);
    var h := ParseWord(raw);
    var kept := (if h.isRequest then 0x200 else 0) + h.serviceId as nat;
    assert HeaderWord(h.isRequest, h.serviceId, h.messageId) == kept * 0x1_0000 + h.messageId;
    SameHalves(kept, h.messageId, high, low);
    HighIff(high);
  }

  /** Parsing loses nothing exactly when the unused bits and the error bit are clear. */
  lemma BuildParsedIff(bytes: seq<U8>)
    requires |bytes| == 4
    ensures var raw, h := FromBe(bytes), ParseOdpHeader(bytes).value;
            BuildOdpHeader(h.isRequest, h.serviceId, h.messageId) == bytes <==>
            raw / 0x400_0000 == 0 && raw / 0x100_0000 % 2 == 0 && !h.isError
  {
    FourBytes();
    assert bytes[..4] == bytes;
    BeInverseBytes(bytes);
    var h := ParseOdpHeader(bytes).value;
    WordIff(FromBe(bytes));
    BeInverse(HeaderWord(h.isRequest, h.serviceId, h.messageId), 4);
  }

  /** The bytes of a built header: the request bit, the service, the message id's two bytes. */
  lemma BuiltLayout(isRequest: bool, serviceId: U8, messageId: U16)
    ensures BuildOdpHeader(isRequest, serviceId, messageId) ==
            [if isRequest then 2 else 0, serviceId, messageId / 0x100 % 0x80, messageId % 0x100]
  {
    var raw: nat := HeaderWord(isRequest, serviceId, messageId);
    var top, low := (if isRequest then 0x200 else 0) + serviceId as nat, messageId as nat % 0x8000;
    assert raw == top * 0x1_0000 + low;
    assert raw / 0x100 == top * 0x100 + low / 0x100 && raw % 0x100 == low % 0x100;
    assert ToBe(top / 0x100, 1) == ToBe(top / 0x100 / 0x100, 0) + [top / 0x100 % 0x100];
    assert ToBe(top, 2) == [top / 0x100, top % 0x100];
    assert raw / 0x100 / 0x100 == top;
    assert ToBe(raw / 0x100, 3) == ToBe(top, 2) + [raw / 0x100 % 0x100];
    assert ToBe(raw, 4) == ToBe(raw / 0x100, 3) + [raw % 0x100];
  }

  lemma BytesOfHalves(a: U8, b: U8, c: U8, d: U8)
    ensures (a as nat * 0x100 + b as nat) / 0x200 == a / 2 && (a as nat * 0x100 + b as nat) % 0x100 == b
    ensures (c as nat * 0x100 + d as nat) / 0x8000 == 1 <==> c >= 0x80
    ensures (c as nat * 0x100 + d as nat) % 0x8000 == c as nat % 0x80 * 0x100 + d as nat
  {
  }

  /** What a header's bytes say; fewer than four say nothing. */
  lemma ParsedLayout(bytes: seq<U8>)
    ensures ParseOdpHeader(bytes) ==
            if |bytes| < 4 then Failure(BufferTooShort)
            else Success(OdpHeader(bytes[0] / 2 % 2 == 1, bytes[1], bytes[2] >= 0x80,
                                   bytes[2] as nat % 0x80 * 0x100 + bytes[3]))
  {
    if |bytes| >= 4 {
      FourBigEndian(bytes[..4]);
      var top := bytes[0] as nat * 0x100 + bytes[1] as nat;
      var low := bytes[2] as nat * 0x100 + bytes[3] as nat;
      WordHalves(FromBe(bytes[..4]), top, low);
      BytesOfHalves(bytes[0], bytes[1], bytes[2], bytes[3]);
    }
  }

  /** A stream that fails within the first bytes, none of them the flag, is reported as it failed. */
  lemma {:induction false} ReadFails(bytes: seq<U8>, rest: seq<Rx>, capacity: nat)
    requires |bytes| < capacity && forall i | 0 <= i < |bytes| :: bytes[i] != 0x7E
    ensures Receive(Wire(bytes) + [TimedOut] + rest, capacity) == (Failure(TransportReadTimeout), rest)
    ensures Receive(Wire(bytes) + [Broken] + rest, capacity) == (Failure(TransportRead), rest)
    ensures Receive(Wire(bytes), capacity) == (Failure(TransportRead), [])
    decreases |bytes|
  {
    if bytes == [] {
      assert Wire(bytes) == [];
      assert ([TimedOut] + rest)[1..] == rest && ([Broken] + rest)[1..] == rest;
      assert [] + [TimedOut] + rest == [TimedOut] + rest && [] + [Broken] + rest == [Broken] + rest;
    } else {
      var tail := bytes[1..];
      ReadFails(tail, rest, capacity - 1);
      assert Wire(bytes)[1..] == Wire(tail);
      assert (Wire(bytes) + [TimedOut] + rest)[1..] == Wire(tail) + [TimedOut] + rest;
      assert (Wire(bytes) + [Broken] + rest)[1..] == Wire(tail) + [Broken] + rest;
    }
  }

  /** What arrives of a packet is what is taken off the stream, but for the read that failed. */
  lemma {:induction false} ArrivedIsTaken(rx: seq<Rx>, capacity: nat)
    ensures var (packet, last) := Receive(rx, capacity);
            rx == Wire(Arrived(rx, capacity)) + last ||
            (packet.Failure? && exists failed | failed in {TimedOut, Broken} ::
               rx == Wire(Arrived(rx, capacity)) + [failed] + last)
    decreases capacity
  {
    var (packet, last) := Receive(rx, capacity);
    if capacity == 0 || rx == [] {
      assert rx == Wire([]) + rx;
    } else if !rx[0].Byte? {
      assert rx == [] + [rx[0]] + rx[1..] && Wire([]) == [];
    } else if rx[0].byte == END_FLAG {
      assert Wire([rx[0].byte]) == [rx[0]];
      assert rx == [rx[0]] + rx[1..];
    } else {
      var tail := Arrived(rx[1..], capacity - 1);
      ArrivedIsTaken(rx[1..], capacity - 1);
      assert Wire([rx[0].byte] + tail) == [rx[0]] + Wire(tail);
      assert rx == [rx[0]] + rx[1..];
      if rx[1..] == Wire(tail) + last {
        assert [rx[0]] + (Wire(tail) + last) == ([rx[0]] + Wire(tail)) + last;
      } else {
        var failed :| failed in {TimedOut, Broken} && rx[1..] == Wire(tail) + [failed] + last;
        assert [rx[0]] + (Wire(tail) + [failed] + last) == ([rx[0]] + Wire(tail)) + [failed] + last;
      }
    }
  }
}
