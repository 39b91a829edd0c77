/**
 * Which pages get a command executed, and what they then hold, told from the
 * page's own fields: nothing else is refused, nothing acceptable is turned away.
 */
module SstStarts {
  import opened Outcomes
  import opened SstSpec
  import opened SstTheorems
  import opened Words
  import TpmSpec

  /** Bytes 2 to 5 of a packet as a number, the most significant first. */
  function Announced(bytes: seq<U8>): nat
    requires |bytes| >= 10
  {
    bytes[2] as nat * 0x100_0000 + bytes[3] as nat * 0x1_0000 + bytes[4] as nat * 0x100 + bytes[5] as nat
  }

  /** The page announces a command that fits the buffer it names, and both sizes are in range. */
  predicate Acceptable(page: TpmSpec.Page) {
    && |page.data| == 0xF80
    && 10 <= page.responseSize <= 0xF80
    && 10 <= Announced(page.data) <= page.commandSize <= 0xF80
  }

  lemma LengthIsAnnounced(bytes: seq<U8>)
    requires |bytes| >= 10
    ensures LengthField(bytes) == Announced(bytes) == FromBe(bytes[2..6])
    ensures LengthField(bytes[..10]) == Announced(bytes)
  {
    FourBigEndian(bytes[2..6]);
  }

  /** A start is refused up front exactly when the page is not acceptable; then nothing is sent. */
  lemma CommandIff(page: TpmSpec.Page)
    requires |page.data| == 0xF80
    ensures Command(page).Success? <==> Acceptable(page)
    ensures Acceptable(page) ==> Command(page).value == page.data[..Announced(page.data)]
  {
    LengthIsAnnounced(page.data);
  }

  lemma RefusedUpFront(tpm: Tpm, dev: Device, page: TpmSpec.Page)
    requires |page.data| == |dev.buffer| == 0xF80 && !Acceptable(page)
    ensures Start(tpm, dev, page) == (InvalidParameters, page.data) && FifoAfter(dev, page) == dev.pending
  {
    CommandIff(page);
  }

  /** A packet as long as it announces. */
  predicate WholePacket(bytes: seq<U8>) {
    |bytes| >= 10 && Announced(bytes) == |bytes|
  }

  lemma WholeParses(response: seq<U8>, capacity: nat)
    requires WholePacket(response) && 10 <= capacity <= 0xF80
    ensures WholeResponse(response, capacity)
    ensures Parsed(response, capacity) ==
            if |response| <= capacity then Success(response) else Failure(InvalidParameters)
  {
    LengthIsAnnounced(response);
    assert response[..|response|] == response;
  }

  lemma HealthyExecutes(dev: Device, command: seq<U8>, page: TpmSpec.Page)
    requires |page.data| == CAPACITY && Command(page) == Success(command)
    requires Healthy(dev) && !dev.isCrb && dev.pending == []
    ensures Executes(dev, command)
  {
    CommandIsComplete(page);
    SendsAll(dev.bursts, |command|);
    assert Received(dev, command) == command;
  }

  /**
   * On a healthy device, through a CRB or an empty FIFO, an acceptable page gets
   * its command executed: the complete response over the old bytes, or
   * InvalidParameters when it does not fit.
   */
  lemma AcceptableExecutes(tpm: Tpm, dev: Device, page: TpmSpec.Page)
    requires |page.data| == |dev.buffer| == 0xF80 && Acceptable(page)
    requires Healthy(dev) && (!dev.isCrb ==> dev.pending == [])
    requires WholePacket(tpm(page.data[..Announced(page.data)]))
    ensures var response := tpm(page.data[..Announced(page.data)]);
            Start(tpm, dev, page) ==
            if |response| <= page.responseSize then (Ok, response + page.data[|response|..])
            else (InvalidParameters, page.data)
    ensures FifoAfter(dev, page) == dev.pending
  {
    CommandIff(page);
    WholeParses(tpm(Command(page).value), page.responseSize);
    if dev.isCrb {
      CrbStart(tpm, dev, page);
    } else {
      FifoStart(tpm, dev, page);
      HealthyExecutes(dev, Command(page).value, page);
    }
  }

  /** So on a healthy device whose TPM answers in full, a start succeeds exactly on acceptable pages. */
  lemma StartsIff(tpm: Tpm, dev: Device, page: TpmSpec.Page)
    requires |page.data| == |dev.buffer| == 0xF80
    requires Healthy(dev) && (!dev.isCrb ==> dev.pending == [])
    requires forall command :: WholePacket(tpm(command)) && |tpm(command)| <= page.responseSize
    ensures Start(tpm, dev, page).0 == Ok <==> Acceptable(page)
  {
    if Acceptable(page) {
      AcceptableExecutes(tpm, dev, page);
    } else {
      RefusedUpFront(tpm, dev, page);
    }
  }

  /** How many bytes the bursts allow, up to the first that is zero. */
  function Allowance(bursts: seq<U16>): nat {
    if bursts == [] || bursts[0] == 0 then 0 else bursts[0] as nat + Allowance(bursts[1..])
  }

  predicate BurstsEndEarly(bursts: seq<U16>, n: nat) {
    Allowance(bursts) < n
  }

  /** Exactly what the bursts allow goes out, and no more than there is. */
  lemma {:induction false} SentInBursts(bursts: seq<U16>, left: nat)
    ensures Send(bursts, left).0 == if Allowance(bursts) < left then Allowance(bursts) else left
    ensures Send(bursts, left).2 <==> Allowance(bursts) >= left
    decreases |bursts|
  {
    if left > 0 && bursts != [] && bursts[0] != 0 {
      SentInBursts(bursts[1..], left - if bursts[0] < left then bursts[0] else left);
    }
  }

  /**
   * What a fault of the device comes to: a command that never finishes, a FIFO
   * that still expects bytes, or bursts that end before the command does are all
   * answered Denied, with the page as it was.
   */
  lemma FaultsDeny(tpm: Tpm, dev: Device, page: TpmSpec.Page)
    requires |page.data| == |dev.buffer| == 0xF80 && Acceptable(page)
    requires dev.hangs || (!dev.isCrb && (dev.refuses || BurstsEndEarly(dev.bursts, Announced(page.data))))
    ensures Start(tpm, dev, page) == (Denied, page.data)
  {
    CommandIff(page);
    SentInBursts(dev.bursts, |Command(page).value|);
  }

  function Sum(bursts: seq<U16>): nat {
    if bursts == [] then 0 else bursts[0] as nat + Sum(bursts[1..])
  }

  lemma SumSplit(bursts: seq<U16>, k: nat)
    requires 1 <= k <= |bursts|
    ensures Sum(bursts[..k]) == bursts[0] as nat + Sum(bursts[1..][..k - 1])
  {
    assert bursts[..k][1..] == bursts[1..][..k - 1];
  }

  // What remains of the bursts after sending: those after the one that finished the command.
  lemma {:induction false} SentUses(bursts: seq<U16>, left: nat) returns (k: nat)
    requires left > 0 && Allowance(bursts) >= left
    ensures 1 <= k <= |bursts| && Send(bursts, left).1 == bursts[k..]
    ensures Sum(bursts[..k - 1]) < left <= Sum(bursts[..k])
    decreases |bursts|
  {
    var first := bursts[0] as nat;
    if first >= left {
      k := 1;
      assert Send(bursts[1..], 0).1 == bursts[1..];
      assert bursts[..1] == [bursts[0]] && bursts[..0] == [];
    } else {
      var below := SentUses(bursts[1..], left - first);
      k := below + 1;
      SumSplit(bursts, below);
      SumSplit(bursts, below + 1);
    }
  }

  /**
   * A FIFO that is healthy but for what it holds executes exactly when that and
   * the command make a whole packet, and is empty then; or else it denies and
   * holds both.
   */
  lemma FifoExecutesIff(tpm: Tpm, dev: Device, page: TpmSpec.Page)
    requires |page.data| == |dev.buffer| == 0xF80 && Acceptable(page) && Healthy(dev) && !dev.isCrb
    ensures var both := dev.pending + page.data[..Announced(page.data)];
            if WholePacket(both) then FifoAfter(dev, page) == []
            else FifoAfter(dev, page) == both && Start(tpm, dev, page) == (Denied, page.data)
  {
    CommandIff(page);
    var command := Command(page).value;
    SendsAll(dev.bursts, |command|);
    assert Received(dev, command) == dev.pending + command;
    LengthIsAnnounced(dev.pending + command);
  }

  /**
   * Reading from a FIFO succeeds exactly when the stream and the bursts have that
   * many bytes, and takes no more of either than it hands on.
   */
  lemma {:induction false} FifoReadsIff(stream: seq<U8>, remaining: nat, bursts: seq<U16>, from: nat, n: nat)
    ensures var (read, last) := ReadBytes(FifoSource(stream, remaining, bursts), from, n);
            && (read.Success? <==> n <= |stream| && n <= remaining + Allowance(bursts))
            && (read.Success? ==>
                  last.FifoSource? && remaining + Allowance(bursts) == n + last.remaining + Allowance(last.bursts))
    decreases n
  {
    if n > 0 {
      var (first, next) := ReadByte(FifoSource(stream, remaining, bursts), from);
      if first.Success? {
        FifoReadsIff(next.stream, next.remaining, next.bursts, from + 1, n - 1);
      }
    }
  }

  // The bytes read, and what is left of the stream and of the bursts.
  predicate Took(stream: seq<U8>, budget: nat, n: nat, read: Result<seq<U8>, ErrorCode>, last: Source) {
    if n <= |stream| && n <= budget
    then read == Success(stream[..n]) && last.FifoSource? && last.stream == stream[n..] &&
         last.remaining + Allowance(last.bursts) == budget - n
    else read == Failure(Denied)
  }

  lemma Takes(stream: seq<U8>, remaining: nat, bursts: seq<U16>, from: nat, n: nat)
    ensures var (read, last) := ReadBytes(FifoSource(stream, remaining, bursts), from, n);
            Took(stream, remaining + Allowance(bursts), n, read, last)
  {
    FifoReads(stream, remaining, bursts, from, n);
    FifoReadsIff(stream, remaining, bursts, from, n);
  }

  lemma BodyReadIff(response: seq<U8>, src: Source, capacity: nat)
    requires WholePacket(response) && |response| <= capacity <= 0xF80
    requires src.FifoSource? && src.stream <= response[10..]
    ensures ReadBody(response[..10], src, capacity).0 ==
            if src.stream == response[10..] && |response| - 10 <= src.remaining + Allowance(src.bursts)
            then Success(response) else Failure(Denied)
  {
    LengthIsAnnounced(response);
    Takes(src.stream, src.remaining, src.bursts, 10, |response| - 10);
    assert src.stream == response[10..] ==> response[..10] + src.stream[..|response| - 10] == response;
  }

  // What is left of an offer once the header has been taken.
  lemma OfferedBody(response: seq<U8>, available: nat)
    requires |response| >= 10 && |Offered(response, available)| >= 10
    ensures Offered(response, available)[..10] == response[..10]
    ensures Offered(response, available)[10..] <= response[10..]
    ensures Offered(response, available)[10..] == response[10..] <==> |response| <= available
  {
    assert Offered(response, available)[10..] == response[10..][..|Offered(response, available)| - 10];
  }

  // A whole packet that fits is read if it is offered and the bursts cover it, or else denied.
  lemma ResponseReadIff(response: seq<U8>, available: nat, bursts: seq<U16>, capacity: nat)
    requires WholePacket(response) && |response| <= capacity <= 0xF80
    ensures ReadResponse(FifoSource(Offered(response, available), 0, bursts), capacity).0 ==
            if |response| <= available && |response| <= Allowance(bursts) then Success(response) else Failure(Denied)
  {
    var stream := Offered(response, available);
    Takes(stream, 0, bursts, 0, 10);
    var (header, next) := ReadBytes(FifoSource(stream, 0, bursts), 0, 10);
    if header.Success? {
      OfferedBody(response, available);
      BodyReadIff(response, next, capacity);
    }
  }

  /**
   * A start through a FIFO that neither refuses nor hangs, burst count by burst
   * count. The first `k` counts, and no fewer, cover the command; the TPM executes
   * what the FIFO then holds; and its response is the answer exactly when all of
   * it is offered and the counts after those `k` cover it. All else is denied.
   */
  lemma FifoStartsIff(tpm: Tpm, dev: Device, page: TpmSpec.Page) returns (k: nat)
    requires |page.data| == |dev.buffer| == 0xF80 && Acceptable(page)
    requires !dev.isCrb && !dev.refuses && !dev.hangs && Allowance(dev.bursts) >= Announced(page.data)
    requires var both := dev.pending + page.data[..Announced(page.data)];
             WholePacket(both) && WholePacket(tpm(both)) && |tpm(both)| <= page.responseSize
    ensures 1 <= k <= |dev.bursts|
    ensures Sum(dev.bursts[..k - 1]) < Announced(page.data) <= Sum(dev.bursts[..k])
    ensures var response := tpm(dev.pending + page.data[..Announced(page.data)]);
            Start(tpm, dev, page) ==
            if |response| <= dev.available && |response| <= Allowance(dev.bursts[k..])
            then (Ok, response + page.data[|response|..]) else (Denied, page.data)
    ensures FifoAfter(dev, page) == []
  {
    CommandIff(page);
    var command := Command(page).value;
    SentInBursts(dev.bursts, |command|);
    k := SentUses(dev.bursts, |command|);
    assert Received(dev, command) == dev.pending + command;
    LengthIsAnnounced(dev.pending + command);
    ResponseReadIff(tpm(dev.pending + command), dev.available, dev.bursts[k..], page.responseSize);
  }

  /** What arrives of a read is what it takes off the stream, however it ends. */
  lemma {:induction false} ArrivedIsTaken(stream: seq<U8>, remaining: nat, bursts: seq<U16>, from: nat, n: nat)
    ensures var src := FifoSource(stream, remaining, bursts);
            ReadBytes(src, from, n).1.FifoSource? &&
            Arrived(src, from, n) + ReadBytes(src, from, n).1.stream == stream
    decreases n
  {
    var src := FifoSource(stream, remaining, bursts);
    if n > 0 {
      var (first, next) := ReadByte(src, from);
      if first.Success? {
        ArrivedIsTaken(next.stream, next.remaining, next.bursts, from + 1, n - 1);
        assert stream == [stream[0]] + stream[1..];
      }
    }
  }

  lemma BodyIsTaken(head: seq<U8>, src: Source, capacity: nat)
    requires |head| == TPM_HEADER_SIZE <= capacity && src.FifoSource?
    ensures ReadBody(head, src, capacity).1.FifoSource?
    ensures BodyArrived(head, src, capacity) + ReadBody(head, src, capacity).1.stream == head + src.stream
  {
    match PacketLength(head, capacity)
    case Failure(_) =>
    case Success(length) =>
      var n := length - TPM_HEADER_SIZE;
      ArrivedIsTaken(src.stream, src.remaining, src.bursts, TPM_HEADER_SIZE, n);
      var last := ReadBytes(src, TPM_HEADER_SIZE, n).1;
      assert (head + Arrived(src, TPM_HEADER_SIZE, n)) + last.stream ==
             head + (Arrived(src, TPM_HEADER_SIZE, n) + last.stream);
  }

  /** The same for a whole response: nothing is taken off the stream that does not reach the buffer. */
  lemma ResponseIsTaken(stream: seq<U8>, bursts: seq<U16>, capacity: nat)
    ensures var src := FifoSource(stream, 0, bursts);
            ReadResponse(src, capacity).1.FifoSource? &&
            ResponseArrived(src, capacity) + ReadResponse(src, capacity).1.stream == stream
  {
    var src := FifoSource(stream, 0, bursts);
    if TPM_HEADER_SIZE <= capacity <= CAPACITY {
      ArrivedIsTaken(stream, 0, bursts, 0, TPM_HEADER_SIZE);
      var (header, next) := ReadBytes(src, 0, TPM_HEADER_SIZE);
      if header.Success? {
        BodyIsTaken(header.value, next, capacity);
      }
    } else {
      assert [] + stream == stream;
    }
  }

  // --- Through a CRB ----------------------------------------------------------------------

  /** A CRB buffer once the TPM has answered: its response, what that leaves of the command, and of the rest. */
  function Standing(response: seq<U8>, command: seq<U8>, before: seq<U8>): (r: seq<U8>)
    requires |command| <= |before| == 0xF80
    ensures |r| == 0xF80
  {
    seq(0xF80, i requires 0 <= i < 0xF80 =>
      if i < |response| then response[i] else if i < |command| then command[i] else before[i])
  }

  /**
   * A start through a CRB, whatever the TPM answers: as many bytes as the header
   * in the device's buffer announces, if that is in range, or InvalidParameters.
   */
  lemma CrbStartsIff(tpm: Tpm, dev: Device, page: TpmSpec.Page)
    requires |page.data| == |dev.buffer| == 0xF80 && Acceptable(page) && dev.isCrb && !dev.hangs
    ensures var command := page.data[..Announced(page.data)];
            var found := Standing(tpm(command), command, dev.buffer);
            var n := Announced(found);
            Start(tpm, dev, page) ==
            if 10 <= n <= page.responseSize then (Ok, found[..n] + page.data[n..]) else (InvalidParameters, page.data)
  {
    CommandIff(page);
    var command := Command(page).value;
    var found := Overlay(Truncated(tpm(command)), Overlay(command, dev.buffer));
    assert found == Standing(tpm(command), command, dev.buffer);
    LengthIsAnnounced(found);
    CrbResponse(found, page.responseSize);
  }
}
