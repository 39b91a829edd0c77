/**
 * The interface does not show: a command carried out through a FIFO, under any
 * schedule of burst counts, gives the host what a CRB gives, or a plain denial.
 */
module SstTheorems {
  import opened Outcomes
  import opened SstSpec
  import opened Words
  import TpmSpec

  lemma {:induction false} CrbReads(buffer: seq<U8>, from: nat, n: nat)
    requires from + n <= |buffer|
    ensures ReadBytes(CrbSource(buffer), from, n).0 == Success(buffer[from..from + n])
    decreases n
  {
    if n == 0 {
      assert buffer[from..from + n] == [];
    } else {
      CrbReads(buffer, from + 1, n - 1);
      assert buffer[from..from + n] == [buffer[from]] + buffer[from + 1..from + n];
    }
  }

  /** A CRB response is the front of the buffer, as long as its header announces. */
  lemma CrbResponse(buffer: seq<U8>, capacity: nat)
    requires |buffer| == CAPACITY && TPM_HEADER_SIZE <= capacity <= CAPACITY
    ensures ReadResponse(CrbSource(buffer), capacity).0 ==
            match PacketLength(buffer[..TPM_HEADER_SIZE], capacity)
            case Failure(error) => Failure(error)
            case Success(length) => Success(buffer[..length])
  {
    CrbReads(buffer, 0, TPM_HEADER_SIZE);
    match PacketLength(buffer[..TPM_HEADER_SIZE], capacity)
    case Failure(_) =>
    case Success(length) =>
      CrbReads(buffer, TPM_HEADER_SIZE, length - TPM_HEADER_SIZE);
      assert buffer[..length] == buffer[..TPM_HEADER_SIZE] + buffer[TPM_HEADER_SIZE..length];
  }

  predicate NonZero(bursts: seq<U16>) {
    forall i | 0 <= i < |bursts| :: bursts[i] != 0
  }

  // Whatever the bursts: the next bytes of the stream, in order, or a denial.
  lemma {:induction false} FifoReads(stream: seq<U8>, remaining: nat, bursts: seq<U16>, from: nat, n: nat)
    ensures var (read, last) := ReadBytes(FifoSource(stream, remaining, bursts), from, n);
            && last.FifoSource?
            && (read == Failure(Denied) ||
                (n <= |stream| && read == Success(stream[..n]) && last.stream == stream[n..]))
    decreases n
  {
    if n > 0 {
      var (first, next) := ReadByte(FifoSource(stream, remaining, bursts), from);
      if first.Success? {
        FifoReads(next.stream, next.remaining, next.bursts, from + 1, n - 1);
        assert n <= |stream| ==> stream[..n] == [stream[0]] + stream[1..][..n - 1];
        assert n <= |stream| ==> stream[n..] == stream[1..][n - 1..];
      }
    }
  }

  // With bursts to spare nothing is denied while the stream lasts.
  lemma {:induction false} FifoReadsAll(stream: seq<U8>, remaining: nat, bursts: seq<U16>, from: nat, n: nat)
    requires NonZero(bursts) && n <= remaining + |bursts|
    ensures var (read, last) := ReadBytes(FifoSource(stream, remaining, bursts), from, n);
            if n <= |stream|
            then read.Success? && last.FifoSource? && NonZero(last.bursts) &&
                 remaining + |bursts| <= last.remaining + |last.bursts| + n
            else read == Failure(Denied)
    decreases n
  {
    if n > 0 {
      var (first, next) := ReadByte(FifoSource(stream, remaining, bursts), from);
      if first.Success? {
        FifoReadsAll(next.stream, next.remaining, next.bursts, from + 1, n - 1);
      }
    }
  }

  // What the bytes of a response amount to on a FIFO that denies nothing.
  function Parsed(response: seq<U8>, capacity: nat): Result<seq<U8>, ErrorCode> {
    if |response| < TPM_HEADER_SIZE then Failure(Denied)
    else
      match PacketLength(response[..TPM_HEADER_SIZE], capacity)
      case Failure(error) => Failure(error)
      case Success(length) => if length <= |response| then Success(response[..length]) else Failure(Denied)
  }

  // The body, once the header has been taken off the front of `stream`.
  lemma FifoBody(stream: seq<U8>, src: Source, capacity: nat)
    requires |stream| >= TPM_HEADER_SIZE && src.FifoSource? && src.stream == stream[TPM_HEADER_SIZE..]
    ensures ReadBody(stream[..TPM_HEADER_SIZE], src, capacity).0 in {Failure(Denied), Parsed(stream, capacity)}
  {
    var head := stream[..TPM_HEADER_SIZE];
    if PacketLength(head, capacity).Success? {
      var length := PacketLength(head, capacity).value;
      var n := length - TPM_HEADER_SIZE;
      FifoReads(src.stream, src.remaining, src.bursts, TPM_HEADER_SIZE, n);
      if length <= |stream| {
        assert stream[..length] == head + src.stream[..n];
      }
    }
  }

  lemma FifoResponse(stream: seq<U8>, bursts: seq<U16>, capacity: nat)
    requires TPM_HEADER_SIZE <= capacity <= CAPACITY
    ensures ReadResponse(FifoSource(stream, 0, bursts), capacity).0 in {Failure(Denied), Parsed(stream, capacity)}
  {
    FifoReads(stream, 0, bursts, 0, TPM_HEADER_SIZE);
    var (header, next) := ReadBytes(FifoSource(stream, 0, bursts), 0, TPM_HEADER_SIZE);
    if header.Success? {
      FifoBody(stream, next, capacity);
    }
  }

  lemma HealthyFifoResponse(stream: seq<U8>, bursts: seq<U16>, capacity: nat)
    requires TPM_HEADER_SIZE <= capacity <= CAPACITY && NonZero(bursts) && CAPACITY <= |bursts|
    ensures ReadResponse(FifoSource(stream, 0, bursts), capacity).0 == Parsed(stream, capacity)
  {
    FifoResponse(stream, bursts, capacity);
    FifoReads(stream, 0, bursts, 0, TPM_HEADER_SIZE);
    FifoReadsAll(stream, 0, bursts, 0, TPM_HEADER_SIZE);
    var (header, next) := ReadBytes(FifoSource(stream, 0, bursts), 0, TPM_HEADER_SIZE);
    if header.Success? && PacketLength(header.value, capacity).Success? {
      var length := PacketLength(header.value, capacity).value;
      FifoReadsAll(next.stream, next.remaining, next.bursts, TPM_HEADER_SIZE, length - TPM_HEADER_SIZE);
    }
  }

  lemma {:induction false} SendsAll(bursts: seq<U16>, left: nat)
    requires NonZero(bursts) && left <= |bursts|
    ensures var (sent, rest, ok) := Send(bursts, left);
            ok && NonZero(rest) && |bursts| <= |rest| + left
    decreases |bursts|
  {
    if left > 0 {
      SendsAll(bursts[1..], left - if bursts[0] < left then bursts[0] else left);
    }
  }

  /** The response has a header and, if that announces a length that fits, all of it. */
  predicate WholeResponse(response: seq<U8>, capacity: nat) {
    && |response| >= TPM_HEADER_SIZE
    && (PacketLength(response[..TPM_HEADER_SIZE], capacity).Success? ==>
          PacketLength(response[..TPM_HEADER_SIZE], capacity).value <= |response|)
  }

  // The CRB buffer after the response was written over it parses as the response does.
  lemma CrbParsed(response: seq<U8>, below: seq<U8>, capacity: nat)
    requires |below| == CAPACITY && TPM_HEADER_SIZE <= capacity <= CAPACITY
    ensures ReadResponse(CrbSource(Overlay(Truncated(response), below)), capacity).0 != Failure(Denied)
    ensures WholeResponse(response, capacity) ==>
              ReadResponse(CrbSource(Overlay(Truncated(response), below)), capacity).0 == Parsed(response, capacity)
  {
    var buffer := Overlay(Truncated(response), below);
    CrbResponse(buffer, capacity);
    if WholeResponse(response, capacity) {
      assert buffer[..TPM_HEADER_SIZE] == response[..TPM_HEADER_SIZE];
      match PacketLength(response[..TPM_HEADER_SIZE], capacity)
      case Failure(_) =>
      case Success(length) => assert buffer[..length] == response[..length];
    }
  }

  lemma ParsedIsWhole(response: seq<U8>, capacity: nat)
    ensures WholeResponse(response, capacity) <==> Parsed(response, capacity) != Failure(Denied)
  {
  }

  /** A device that gives every burst, takes the command, finishes and offers its whole response. */
  predicate Healthy(dev: Device) {
    && !dev.refuses && !dev.hangs
    && (!dev.isCrb ==> NonZero(dev.bursts) && 2 * CAPACITY <= |dev.bursts| && CAPACITY <= dev.available)
  }

  lemma ParsedPrefix(response: seq<U8>, n: nat, capacity: nat)
    requires n <= |response|
    ensures Parsed(response[..n], capacity) in {Failure(Denied), Parsed(response, capacity)}
    ensures n >= CAPACITY ==> Parsed(response[..n], capacity) == Parsed(response, capacity)
  {
    if n >= TPM_HEADER_SIZE {
      assert response[..n][..TPM_HEADER_SIZE] == response[..TPM_HEADER_SIZE];
      match PacketLength(response[..TPM_HEADER_SIZE], capacity)
      case Failure(_) =>
      case Success(length) => assert length <= n ==> response[..n][..length] == response[..length];
    }
  }

  // What a FIFO offers of a response parses as the response does, if it offers enough.
  lemma OfferedParses(response: seq<U8>, available: nat, capacity: nat)
    ensures Parsed(Offered(response, available), capacity) in {Failure(Denied), Parsed(response, capacity)}
    ensures available >= CAPACITY ==> Parsed(Offered(response, available), capacity) == Parsed(response, capacity)
  {
    var n := |Offered(response, available)|;
    assert response[..|response|] == response;
    ParsedPrefix(response, n, capacity);
  }

  // A FIFO that is healthy and empty ends as its response parses.
  lemma FifoStart(tpm: Tpm, dev: Device, page: TpmSpec.Page)
    requires Sized(dev, page) && Healthy(dev) && !dev.isCrb && dev.pending == [] && Command(page).Success?
    ensures Start(tpm, dev, page) ==
            match Parsed(tpm(Command(page).value), page.responseSize)
            case Failure(error) => (error, page.data)
            case Success(response) => (Ok, response + page.data[|response|..])
  {
    var command := Command(page).value;
    CommandIsComplete(page);
    SendsAll(dev.bursts, |command|);
    assert Received(dev, command) == command;
    OfferedParses(tpm(command), dev.available, page.responseSize);
    HealthyFifoResponse(Offered(tpm(command), dev.available), Send(dev.bursts, |command|).1, page.responseSize);
  }

  lemma CrbStart(tpm: Tpm, dev: Device, page: TpmSpec.Page)
    requires Sized(dev, page) && Healthy(dev) && dev.isCrb && Command(page).Success?
    ensures Start(tpm, dev, page).0 != Denied
    ensures WholeResponse(tpm(Command(page).value), page.responseSize) ==>
            Start(tpm, dev, page) ==
            match Parsed(tpm(Command(page).value), page.responseSize)
            case Failure(error) => (error, page.data)
            case Success(response) => (Ok, response + page.data[|response|..])
  {
    var command := Command(page).value;
    CrbParsed(tpm(command), Overlay(command, dev.buffer), page.responseSize);
  }

  /**
   * On healthy devices an empty FIFO and a CRB give the same status and the same
   * buffer exactly when the command is refused up front or the TPM's response is
   * whole.
   */
  lemma InterfacesAgreeIff(tpm: Tpm, crb: Device, fifo: Device, page: TpmSpec.Page)
    requires Sized(crb, page) && Sized(fifo, page)
    requires Healthy(crb) && Healthy(fifo) && crb.isCrb && !fifo.isCrb && fifo.pending == []
    ensures Start(tpm, fifo, page) == Start(tpm, crb, page) <==>
            (Command(page).Success? ==> WholeResponse(tpm(Command(page).value), page.responseSize))
  {
    if Command(page).Success? {
      FifoStart(tpm, fifo, page);
      CrbStart(tpm, crb, page);
      ParsedIsWhole(tpm(Command(page).value), page.responseSize);
    }
  }

  /** The TPM behind a FIFO that holds `pending` already: it finds that in front of its command. */
  function Behind(tpm: Tpm, pending: seq<U8>): Tpm {
    command => tpm(pending + command)
  }

  // A FIFO ends denied, or as the response to what it held and its command parses.
  lemma FifoStartOrDenied(tpm: Tpm, dev: Device, page: TpmSpec.Page)
    requires Sized(dev, page) && !dev.isCrb && Command(page).Success?
    ensures var parsed := Parsed(tpm(dev.pending + Command(page).value), page.responseSize);
            || Start(tpm, dev, page) == (Denied, page.data)
            || (parsed != Failure(Denied) && Start(tpm, dev, page) ==
                 match parsed
                 case Failure(error) => (error, page.data)
                 case Success(response) => (Ok, response + page.data[|response|..]))
  {
    var command := Command(page).value;
    if Executes(dev, command) {
      assert Received(dev, command) == dev.pending + command;
      var response := tpm(dev.pending + command);
      FifoResponse(Offered(response, dev.available), Send(dev.bursts, |command|).1, page.responseSize);
      OfferedParses(response, dev.available, page.responseSize);
    }
  }

  /**
   * Under any burst schedule and any fault a start through a FIFO is denied and
   * leaves the buffer alone, or gives exactly what a healthy CRB gives whose TPM
   * finds, in front of each command, what the FIFO held.
   */
  lemma FifoIsCrbOrDenied(tpm: Tpm, crb: Device, fifo: Device, page: TpmSpec.Page)
    requires Sized(crb, page) && Sized(fifo, page)
    requires Healthy(crb) && crb.isCrb && !fifo.isCrb
    ensures Start(tpm, fifo, page) in {(Denied, page.data), Start(Behind(tpm, fifo.pending), crb, page)}
  {
    if Command(page).Success? {
      CrbStart(Behind(tpm, fifo.pending), crb, page);
      FifoStartOrDenied(tpm, fifo, page);
      ParsedIsWhole(tpm(fifo.pending + Command(page).value), page.responseSize);
    }
  }

  /** An empty FIFO: denied, or exactly as through a healthy CRB. */
  lemma EmptyFifoIsCrbOrDenied(tpm: Tpm, crb: Device, fifo: Device, page: TpmSpec.Page)
    requires Sized(crb, page) && Sized(fifo, page)
    requires Healthy(crb) && crb.isCrb && !fifo.isCrb && fifo.pending == []
    ensures Start(tpm, fifo, page) in {(Denied, page.data), Start(tpm, crb, page)}
  {
    FifoIsCrbOrDenied(tpm, crb, fifo, page);
    if Command(page).Success? {
      assert [] + Command(page).value == Command(page).value;
    }
  }

  /** A command that executes through a FIFO is the one in the page exactly when the FIFO held nothing. */
  lemma ExecutesOwnIff(dev: Device, page: TpmSpec.Page)
    requires |page.data| == CAPACITY && Command(page).Success? && !dev.isCrb && Executes(dev, Command(page).value)
    ensures Received(dev, Command(page).value) == Command(page).value <==> dev.pending == []
  {
    var command := Command(page).value;
    assert |Received(dev, command)| == |dev.pending| + |command|;
    assert dev.pending == [] ==> Received(dev, command) == command;
  }

  // --- What goes wrong -----------------------------------------------------------------

  // A packet of `n` bytes, zero but for its length.
  function PacketOf(n: U8): (r: seq<U8>)
    requires n >= TPM_HEADER_SIZE
    ensures |r| == n && CompletePacket(r)
  {
    [0, 0, 0, 0, 0, n] + Zeros(n - 6)
  }

  // A page that holds the packet of `n` bytes as its command.
  function PageOf(page: TpmSpec.Page, n: U8): (r: TpmSpec.Page)
    requires n >= TPM_HEADER_SIZE
    ensures |r.data| == CAPACITY && r.responseSize == CAPACITY && Command(r) == Success(PacketOf(n))
  {
    var data := PacketOf(n) + Zeros(CAPACITY - n as nat);
    assert data[..TPM_HEADER_SIZE] == PacketOf(n)[..TPM_HEADER_SIZE];
    assert data[..n] == PacketOf(n);
    page.(data := data, commandSize := CAPACITY, responseSize := CAPACITY)
  }

  /**
   * A start whose bursts end after ten of its 22 bytes is denied and leaves them
   * in the FIFO. If nothing empties it, a start of 12 bytes then hands the TPM
   * those ten and its own twelve: 22 bytes that no page ever held as a command.
   */
  lemma LeftoversAreExecuted(tpm: Tpm, page: TpmSpec.Page, first: Device, second: Device)
    requires |first.buffer| == CAPACITY
    requires !first.isCrb && first.pending == [] && first.bursts == [10, 0]
    requires !second.isCrb && second.bursts != [] && second.bursts[0] == 12 && !second.refuses && !second.hangs
    requires second.pending == FifoAfter(first, PageOf(page, 22))
    ensures Start(tpm, first, PageOf(page, 22)) == (Denied, PageOf(page, 22).data)
    ensures second.pending == PacketOf(22)[..10]
    ensures Executes(second, PacketOf(12))
    ensures Received(second, PacketOf(12)) == PacketOf(22)[..10] + PacketOf(12)
    ensures PacketOf(22)[..10] + PacketOf(12) !in {PacketOf(22), PacketOf(12)}
  {
    assert first.bursts[1..] == [0];
    assert Send([0], 12) == (0, [], false);
    assert Send(first.bursts, 22).0 == 10 && !Send(first.bursts, 22).2;
    assert [] + PacketOf(22)[..10] == PacketOf(22)[..10];
    assert Send(second.bursts[1..], 0).2;
    assert Send(second.bursts, 12).0 == 12;
    var both := PacketOf(22)[..10] + PacketOf(12);
    assert PacketOf(12)[..12] == PacketOf(12);
    assert LengthField(both) == 22;
    assert both[15] == 12;
  }

  /** A response of ten bytes that announces twelve: a FIFO denies, a CRB returns two bytes it held before. */
  lemma ShortResponseDiffers(crb: Device, fifo: Device, page: TpmSpec.Page)
    requires |crb.buffer| == CAPACITY && |fifo.buffer| == CAPACITY && Healthy(crb) && Healthy(fifo)
    requires crb.isCrb && !fifo.isCrb && fifo.pending == []
    ensures var tpm: Tpm := _ => PacketOf(12)[..10];
            && Start(tpm, fifo, PageOf(page, 10)).0 == Denied
            && Start(tpm, crb, PageOf(page, 10)).0 == Ok
  {
    var tpm: Tpm := _ => PacketOf(12)[..10];
    var asked := PageOf(page, 10);
    assert LengthField(PacketOf(12)[..10][..10]) == 12;
    FifoStart(tpm, fifo, asked);
    var below := Overlay(PacketOf(10), crb.buffer);
    var buffer := Overlay(Truncated(PacketOf(12)[..10]), below);
    CrbResponse(buffer, CAPACITY);
    assert LengthField(buffer[..10]) == 12;
  }

  lemma BodyReadsExactly(head: seq<U8>, src: Source, capacity: nat)
    requires |head| == TPM_HEADER_SIZE && src.FifoSource?
    ensures var (read, last) := ReadBody(head, src, capacity);
            match read
            case Success(response) =>
              last.FifoSource? && response + last.stream == head + src.stream && |response| == LengthField(response)
            case Failure(error) =>
              last.FifoSource? && (error == Denied || (error == InvalidParameters && last == src))
  {
    if PacketLength(head, capacity).Success? {
      var n := PacketLength(head, capacity).value - TPM_HEADER_SIZE;
      FifoReads(src.stream, src.remaining, src.bursts, TPM_HEADER_SIZE, n);
      var (body, last) := ReadBytes(src, TPM_HEADER_SIZE, n);
      if body.Success? {
        assert src.stream == body.value + last.stream;
        assert head + src.stream == (head + body.value) + last.stream;
      }
    }
  }

  // A read took `response` off the front of `stream`, or the header only, or was denied.
  ghost predicate TookExactly(stream: seq<U8>, read: Result<seq<U8>, ErrorCode>, last: Source) {
    last.FifoSource? &&
    match read
    case Success(response) =>
      response + last.stream == stream && |response| >= TPM_HEADER_SIZE && |response| == LengthField(response)
    case Failure(error) =>
      error == Denied || (error == InvalidParameters && |stream| == TPM_HEADER_SIZE + |last.stream|)
  }

  lemma BodyTookExactly(stream: seq<U8>, head: seq<U8>, src: Source, capacity: nat)
    requires |head| == TPM_HEADER_SIZE && src.FifoSource? && head + src.stream == stream
    ensures ReadBody(head, src, capacity).1.FifoSource?
    ensures TookExactly(stream, ReadBody(head, src, capacity).0, ReadBody(head, src, capacity).1)
  {
    BodyReadsExactly(head, src, capacity);
  }

  /**
   * Reading a response takes the stream's bytes from the front, once each: on
   * success as many as the header announces, after a bad length just the header.
   */
  lemma ReadsExactly(stream: seq<U8>, bursts: seq<U16>, capacity: nat)
    requires TPM_HEADER_SIZE <= capacity <= CAPACITY
    ensures var (read, last) := ReadResponse(FifoSource(stream, 0, bursts), capacity);
            TookExactly(stream, read, last)
  {
    FifoReads(stream, 0, bursts, 0, TPM_HEADER_SIZE);
    var (header, next) := ReadBytes(FifoSource(stream, 0, bursts), 0, TPM_HEADER_SIZE);
    if header.Success? {
      assert header.value + next.stream == stream;
      BodyTookExactly(stream, header.value, next, capacity);
    }
  }
}
