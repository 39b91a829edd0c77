/**
 * The state translation library on values: one TPM command carried out through
 * a CRB or through a FIFO interface. The TPM itself is a function from command
 * bytes to response bytes; what its interface may do besides is in `Device`.
 */
module SstSpec {
  import opened Outcomes
  import TpmSpec

  const TPM_HEADER_SIZE: nat := 10
  const CAPACITY: nat := TpmSpec.CRB_DATA_BUFFER_SIZE

  /** The length field of a packet: bytes 2 to 5, most significant first. */
  function LengthField(header: seq<U8>): U32
    requires |header| >= TPM_HEADER_SIZE
  {
    var a: nat, b: nat, c: nat, d: nat := header[2], header[3], header[4], header[5];
    ((a * 0x100 + b) * 0x100 + c) * 0x100 + d
  }

  function PacketLength(header: seq<U8>, capacity: nat): (r: Result<nat, ErrorCode>)
    ensures r.Success? <==>
              |header| >= TPM_HEADER_SIZE && TPM_HEADER_SIZE <= LengthField(header) <= capacity <= CAPACITY
    ensures r.Success? ==> r.value == LengthField(header)
    ensures r.Failure? ==> r.error == InvalidParameters
  {
    if |header| < TPM_HEADER_SIZE then Failure(InvalidParameters)
    else
      var length := LengthField(header);
      if !(TPM_HEADER_SIZE <= capacity <= CAPACITY) || !(TPM_HEADER_SIZE <= length <= capacity)
      then Failure(InvalidParameters)
      else Success(length)
  }

  // --- Reading a response, byte by byte ---------------------------------------------

  /** Where response bytes come from; a FIFO also has a burst budget and coming burst counts. */
  datatype Source =
    | CrbSource(buffer: seq<U8>)
    | FifoSource(stream: seq<U8>, remaining: nat, bursts: seq<U16>)

  /** The next burst count: a count of zero, or none left, is a poll that timed out. */
  predicate BurstReady(bursts: seq<U16>) {
    bursts != [] && bursts[0] != 0
  }

  function ReadByte(src: Source, offset: nat): (Result<U8, ErrorCode>, Source)
    requires src.CrbSource? ==> offset < |src.buffer|
  {
    match src
    case CrbSource(buffer) => (Success(buffer[offset]), src)
    case FifoSource(stream, remaining, bursts) =>
      if remaining == 0 && !BurstReady(bursts) then
        (Failure(Denied), FifoSource(stream, 0, if bursts == [] then [] else bursts[1..]))
      else
        var budget := if remaining == 0 then bursts[0] else remaining;
        var rest := if remaining == 0 then bursts[1..] else bursts;
        if stream == [] then (Failure(Denied), FifoSource(stream, budget, rest))
        else (Success(stream[0]), FifoSource(stream[1..], budget - 1, rest))
  }

  /** The `n` bytes from offset `from` on, read once each in order. */
  function ReadBytes(src: Source, from: nat, n: nat): (r: (Result<seq<U8>, ErrorCode>, Source))
    requires src.CrbSource? ==> from + n <= |src.buffer|
    ensures r.0.Success? ==> |r.0.value| == n
    ensures src.CrbSource? <==> r.1.CrbSource?
    ensures src.CrbSource? ==> r.1 == src
    decreases n
  {
    if n == 0 then (Success([]), src)
    else
      var (first, next) := ReadByte(src, from);
      match first
      case Failure(error) => (Failure(error), next)
      case Success(byte) =>
        var (rest, last) := ReadBytes(next, from + 1, n - 1);
        match rest
        case Failure(error) => (Failure(error), last)
        case Success(bytes) => (Success([byte] + bytes), last)
  }

  /** The bytes that arrive before a read of `n` fails, or all of them. */
  function Arrived(src: Source, from: nat, n: nat): (r: seq<U8>)
    requires src.CrbSource? ==> from + n <= |src.buffer|
    ensures |r| <= n
    ensures ReadBytes(src, from, n).0.Success? ==> r == ReadBytes(src, from, n).0.value
    decreases n
  {
    if n == 0 then []
    else
      var (first, next) := ReadByte(src, from);
      match first
      case Failure(_) => []
      case Success(byte) => [byte] + Arrived(next, from + 1, n - 1)
  }

  // The rest of a packet whose header has been read.
  function ReadBody(head: seq<U8>, src: Source, capacity: nat): (r: (Result<seq<U8>, ErrorCode>, Source))
    requires |head| == TPM_HEADER_SIZE && (src.CrbSource? ==> |src.buffer| == CAPACITY)
    ensures r.0.Success? ==> TPM_HEADER_SIZE <= |r.0.value| <= capacity <= CAPACITY
  {
    match PacketLength(head, capacity)
    case Failure(error) => (Failure(error), src)
    case Success(length) =>
      var (body, last) := ReadBytes(src, TPM_HEADER_SIZE, length - TPM_HEADER_SIZE);
      match body
      case Failure(error) => (Failure(error), last)
      case Success(bytes) => (Success(head + bytes), last)
  }

  /** The response: a header, then as many bytes as it announces. */
  function ReadResponse(src: Source, capacity: nat): (r: (Result<seq<U8>, ErrorCode>, Source))
    requires src.CrbSource? ==> |src.buffer| == CAPACITY
    ensures r.0.Success? ==> TPM_HEADER_SIZE <= |r.0.value| <= capacity <= CAPACITY
  {
    if !(TPM_HEADER_SIZE <= capacity <= CAPACITY) then (Failure(InvalidParameters), src)
    else
      var (header, next) := ReadBytes(src, 0, TPM_HEADER_SIZE);
      match header
      case Failure(error) => (Failure(error), next)
      case Success(head) => ReadBody(head, next, capacity)
  }

  // What has arrived once the rest of a packet was asked for.
  function BodyArrived(head: seq<U8>, src: Source, capacity: nat): (r: seq<U8>)
    requires |head| == TPM_HEADER_SIZE <= capacity && (src.CrbSource? ==> |src.buffer| == CAPACITY)
    ensures |r| <= capacity
    ensures ReadBody(head, src, capacity).0.Success? ==> r == ReadBody(head, src, capacity).0.value
  {
    match PacketLength(head, capacity)
    case Failure(_) => head
    case Success(length) => head + Arrived(src, TPM_HEADER_SIZE, length - TPM_HEADER_SIZE)
  }

  /** What has arrived of a response, whether or not reading it succeeds. */
  function ResponseArrived(src: Source, capacity: nat): (r: seq<U8>)
    requires src.CrbSource? ==> |src.buffer| == CAPACITY
    ensures |r| <= capacity
    ensures ReadResponse(src, capacity).0.Success? ==> r == ReadResponse(src, capacity).0.value
  {
    if !(TPM_HEADER_SIZE <= capacity <= CAPACITY) then []
    else
      var (header, next) := ReadBytes(src, 0, TPM_HEADER_SIZE);
      match header
      case Failure(_) => Arrived(src, 0, TPM_HEADER_SIZE)
      case Success(head) => BodyArrived(head, next, capacity)
  }

  // --- Sending a command through the FIFO ---------------------------------------------

  /** How many of `left` bytes go out, what bursts remain, and whether all went. */
  function Send(bursts: seq<U16>, left: nat): (r: (nat, seq<U16>, bool))
    ensures r.0 <= left && (r.2 <==> r.0 == left)
    decreases |bursts|
  {
    if left == 0 then (0, bursts, true)
    else if !BurstReady(bursts) then (0, if bursts == [] then [] else bursts[1..], false)
    else
      var n := if bursts[0] < left then bursts[0] else left;
      var (sent, rest, ok) := Send(bursts[1..], left - n);
      (n + sent, rest, ok)
  }

  // --- One command ---------------------------------------------------------------------

  /**
   * The external interface: its kind, what its CRB buffer and its FIFO hold, the
   * burst counts to come, how many response bytes it will offer, and whether it
   * refuses the command or never finishes.
   */
  datatype Device = Device(
    isCrb: bool,
    buffer: seq<U8>,
    pending: seq<U8>,
    bursts: seq<U16>,
    available: nat,
    refuses: bool,
    hangs: bool)

  type Tpm = seq<U8> -> seq<U8>

  function Overlay(top: seq<U8>, bottom: seq<U8>): (r: seq<U8>)
    requires |top| <= |bottom|
    ensures |r| == |bottom|
  {
    top + bottom[|top|..]
  }

  /** A FIFO stops expecting bytes once it holds a packet of its announced length. */
  predicate CompletePacket(bytes: seq<U8>) {
    |bytes| >= TPM_HEADER_SIZE && LengthField(bytes) == |bytes|
  }

  /** As much of a response as a CRB buffer holds. */
  function Truncated(response: seq<U8>): (r: seq<U8>)
    ensures |r| <= CAPACITY && r <= response
    ensures |response| <= CAPACITY ==> r == response
    ensures |response| > CAPACITY ==> |r| == CAPACITY
  {
    response[..if |response| < CAPACITY then |response| else CAPACITY]
  }

  /** As much of a response as a FIFO offers. */
  function Offered(response: seq<U8>, available: nat): (r: seq<U8>)
    ensures r <= response && (|r| == |response| || |r| == available < |response|)
  {
    response[..if available < |response| then available else |response|]
  }

  predicate Sized(dev: Device, page: TpmSpec.Page) {
    |page.data| == CAPACITY && |dev.buffer| == CAPACITY
  }

  /** The command in the page, when both capacities and its length are in range. */
  function Command(page: TpmSpec.Page): (r: Result<seq<U8>, ErrorCode>)
    requires |page.data| == CAPACITY
    ensures r.Success? ==> |r.value| <= CAPACITY && r.value == page.data[..|r.value|]
    ensures r.Failure? ==> r.error == InvalidParameters
  {
    if !(TPM_HEADER_SIZE <= page.commandSize <= CAPACITY) || !(TPM_HEADER_SIZE <= page.responseSize <= CAPACITY)
    then Failure(InvalidParameters)
    else
      match PacketLength(page.data[..TPM_HEADER_SIZE], page.commandSize)
      case Failure(error) => Failure(error)
      case Success(length) => Success(page.data[..length])
  }

  // The command is a complete packet, so a FIFO that got it all stops expecting bytes.
  lemma CommandIsComplete(page: TpmSpec.Page)
    requires |page.data| == CAPACITY && Command(page).Success?
    ensures CompletePacket(Command(page).value)
    ensures Command(page).value == page.data[..|Command(page).value|]
  {
    var length := PacketLength(page.data[..TPM_HEADER_SIZE], page.commandSize).value;
    assert page.data[..length][..TPM_HEADER_SIZE] == page.data[..TPM_HEADER_SIZE];
  }

  /** What a FIFO holds once as much of the command as its bursts allow has been sent. */
  function Received(dev: Device, command: seq<U8>): seq<U8> {
    dev.pending + command[..Send(dev.bursts, |command|).0]
  }

  /** The TPM executes what its interface holds, and finishes. */
  predicate Executes(dev: Device, command: seq<U8>) {
    && !dev.hangs
    && (!dev.isCrb ==> Send(dev.bursts, |command|).2 && !dev.refuses && CompletePacket(Received(dev, command)))
  }

  // Where the response is read from, once the device has taken and executed `command`.
  function Transmit(tpm: Tpm, dev: Device, command: seq<U8>): (r: Result<Source, ErrorCode>)
    requires |command| <= CAPACITY == |dev.buffer|
    ensures r.Success? && r.value.CrbSource? ==> |r.value.buffer| == CAPACITY
    ensures r.Failure? ==> r.error == Denied
    ensures r.Success? <==> Executes(dev, command)
  {
    if !Executes(dev, command) then Failure(Denied)
    else if dev.isCrb then Success(CrbSource(Overlay(Truncated(tpm(command)), Overlay(command, dev.buffer))))
    else
      var response := tpm(Received(dev, command));
      Success(FifoSource(Offered(response, dev.available), 0, Send(dev.bursts, |command|).1))
  }

  /**
   * What the FIFO holds after a start: nothing once the TPM has executed it, or
   * else what was there and as much of the command as went out.
   */
  function FifoAfter(dev: Device, page: TpmSpec.Page): seq<U8>
    requires |page.data| == CAPACITY
  {
    if dev.isCrb || Command(page).Failure? then dev.pending
    else if Executes(dev, Command(page).value) then []
    else Received(dev, Command(page).value)
  }

  /** One start: its status, and the internal buffer afterwards. */
  function Start(tpm: Tpm, dev: Device, page: TpmSpec.Page): (r: (ErrorCode, seq<U8>))
    requires Sized(dev, page)
    ensures |r.1| == CAPACITY
  {
    match Command(page)
    case Failure(error) => (error, page.data)
    case Success(command) =>
      match Transmit(tpm, dev, command)
      case Failure(error) => (error, page.data)
      case Success(source) =>
        match ReadResponse(source, page.responseSize).0
        case Failure(error) => (error, page.data)
        case Success(response) => (Ok, Overlay(response, page.data))
  }
}
