/**
 * The state translation library as it runs: loops over an interface whose
 * registers change under it. Each method is proved to do what `SstSpec` says,
 * and the FIFO traffic is logged to show that no burst is ever overrun.
 */
module TpmSst {
  import opened Outcomes
  import opened SstSpec
  import opened Words
  import TpmSpec

  /** FIFO traffic: a burst count that was read, a byte that was moved either way. */
  datatype Traffic = Burst(count: U16) | Moved(byte: U8)

  /** What is left of the last burst count, if no byte was moved beyond one. */
  function Budget(log: seq<Traffic>): Option<nat> {
    if log == [] then Some(0)
    else
      match log[|log| - 1]
      case Burst(count) => if Budget(log[..|log| - 1]).Some? then Some(count) else None
      case Moved(_) =>
        match Budget(log[..|log| - 1])
        case None => None
        case Some(left) => if left == 0 then None else Some(left - 1)
  }

  lemma BudgetNext(log: seq<Traffic>, t: Traffic)
    ensures Budget(log + [t]) ==
            match t
            case Burst(count) => (if Budget(log).Some? then Some(count as nat) else None)
            case Moved(_) =>
              if Budget(log).Some? && Budget(log).value > 0 then Some(Budget(log).value - 1) else None
  {
    assert (log + [t])[..|log|] == log;
  }

  // --- Bytes in buffers ------------------------------------------------------------------

  lemma OverlayNext(top: seq<U8>, bottom: seq<U8>, byte: U8)
    requires |top| < |bottom|
    ensures Overlay(top, bottom)[|top| := byte] == Overlay(top + [byte], bottom)
  {
  }

  lemma OverlayFront(top: seq<U8>, bottom: seq<U8>)
    requires |top| <= |bottom|
    ensures Overlay(top, bottom)[..|top|] == top
  {
  }

  // `s` with `bytes` written over it from position `from` on.
  function Written(s: seq<U8>, from: nat, bytes: seq<U8>): (r: seq<U8>)
    requires from + |bytes| <= |s|
    ensures |r| == |s|
  {
    s[..from] + bytes + s[from + |bytes|..]
  }

  lemma WrittenNone(s: seq<U8>, from: nat)
    requires from <= |s|
    ensures Written(s, from, []) == s
  {
  }

  lemma WrittenFront(s: seq<U8>, bytes: seq<U8>)
    requires |bytes| <= |s|
    ensures Written(s, 0, bytes)[..|bytes|] == bytes
  {
  }

  // Writing a longer front over a shorter one.
  lemma WrittenOver(s: seq<U8>, head: seq<U8>, longer: seq<U8>)
    requires |head| <= |longer| <= |s|
    ensures Written(Written(s, 0, head), 0, longer) == Written(s, 0, longer)
  {
  }

  // Writing after a front that stays is writing a longer front.
  lemma WrittenAfter(s: seq<U8>, from: nat, bytes: seq<U8>)
    requires from + |bytes| <= |s|
    ensures Written(s, from, bytes) == Written(s, 0, s[..from] + bytes)
  {
  }

  lemma WrittenNext(s: seq<U8>, from: nat, bytes: seq<U8>, byte: U8)
    requires from + |bytes| < |s|
    ensures Written(s, from, bytes)[from + |bytes| := byte] == Written(s, from, bytes + [byte])
  {
  }

  // What the library reports of a read: how many bytes it was.
  function Counted(read: Result<seq<U8>, ErrorCode>): Result<nat, ErrorCode> {
    match read
    case Failure(error) => Failure(error)
    case Success(bytes) => Success(|bytes|)
  }

  /** What a whole read comes to: how it ends, where it leaves the source, and all that arrives. */
  datatype Goal = Goal(read: Result<seq<U8>, ErrorCode>, last: Source, all: seq<U8>)

  function GoalOf(src: Source, from: nat, n: nat): Goal
    requires src.CrbSource? ==> from + n <= |src.buffer|
  {
    Goal(ReadBytes(src, from, n).0, ReadBytes(src, from, n).1, Arrived(src, from, n))
  }

  // The read is `done` bytes into what comes to `goal`, with `n` bytes to go.
  ghost predicate Under(done: seq<U8>, src: Source, from: nat, n: nat, goal: Goal)
    requires src.CrbSource? ==> from + n <= |src.buffer|
  {
    var rest := GoalOf(src, from, n);
    goal == Goal(InFront(done, rest.read), rest.last, done + rest.all)
  }

  lemma UnderFirst(src: Source, from: nat, n: nat)
    requires src.CrbSource? ==> from + n <= |src.buffer|
    ensures Under([], src, from, n, GoalOf(src, from, n))
  {
    var rest := GoalOf(src, from, n);
    assert [] + rest.all == rest.all;
    InFrontNone(rest.read);
  }

  lemma UnderLast(done: seq<U8>, src: Source, from: nat, goal: Goal)
    requires src.CrbSource? ==> from <= |src.buffer|
    requires Under(done, src, from, 0, goal)
    ensures goal == Goal(Success(done), src, done)
  {
    assert done + [] == done;
  }

  lemma UnderNext(done: seq<U8>, src: Source, from: nat, n: nat, goal: Goal)
    requires n > 0 && (src.CrbSource? ==> from + n <= |src.buffer|)
    requires Under(done, src, from, n, goal)
    ensures var (byte, next) := ReadByte(src, from);
            match byte
            case Failure(error) => goal == Goal(Failure(error), next, done)
            case Success(b) => Under(done + [b], next, from + 1, n - 1, goal)
  {
    var (byte, next) := ReadByte(src, from);
    if byte.Failure? {
      assert done + [] == done;
    } else {
      var rest := GoalOf(next, from + 1, n - 1);
      assert done + ([byte.value] + rest.all) == (done + [byte.value]) + rest.all;
      InFrontNext(done, byte.value, rest.read);
    }
  }

  // --- The interface and the library -----------------------------------------------------

  /** The external TPM: its registers, and what it will do. */
  class External {
    const tpm: Tpm
    const isCrb: bool
    const buffer: array<U8>
    const available: nat
    const refuses: bool
    const hangs: bool
    var bursts: seq<U16>
    var inbox: seq<U8>
    var stream: seq<U8>
    ghost var log: seq<Traffic>

    constructor (tpm: Tpm, isCrb: bool, buffer: array<U8>, bursts: seq<U16>, available: nat, refuses: bool, hangs: bool)
      ensures this.tpm == tpm && this.isCrb == isCrb && this.buffer == buffer
      ensures this.available == available && this.refuses == refuses && this.hangs == hangs
      ensures this.bursts == bursts && inbox == [] && stream == [] && log == []
    {
      this.tpm, this.isCrb, this.buffer := tpm, isCrb, buffer;
      this.available, this.refuses, this.hangs := available, refuses, hangs;
      this.bursts, inbox, stream, log := bursts, [], [], [];
    }

    function AsDevice(): Device
      reads this, buffer
    {
      Device(isCrb, buffer[..], inbox, bursts, available, refuses, hangs)
    }

    // Polls the burst count until it is not zero, or the poll times out.
    method ReadBurstCount() returns (r: Option<U16>)
      modifies this`bursts, this`log
      ensures r.Some? <==> BurstReady(old(bursts))
      ensures r.Some? ==> r.value == old(bursts)[0]
      ensures bursts == if old(bursts) == [] then [] else old(bursts)[1..]
      ensures log == if r.Some? then old(log) + [Burst(r.value)] else old(log)
    {
      if bursts == [] {
        return None;
      }
      var count := bursts[0];
      bursts := bursts[1..];
      if count == 0 {
        return None;
      }
      log := log + [Burst(count)];
      return Some(count);
    }

    method WriteFifo(byte: U8)
      modifies this`inbox, this`log
      ensures inbox == old(inbox) + [byte] && log == old(log) + [Moved(byte)]
    {
      inbox := inbox + [byte];
      log := log + [Moved(byte)];
    }

    // The data register, guarded by the data-available status bit.
    method ReadFifo() returns (r: Option<U8>)
      modifies this`stream, this`log
      ensures r.Some? <==> old(stream) != []
      ensures r.Some? ==> r.value == old(stream)[0] && stream == old(stream)[1..] && log == old(log) + [Moved(r.value)]
      ensures r.None? ==> stream == old(stream) && log == old(log)
    {
      if stream == [] {
        return None;
      }
      r := Some(stream[0]);
      log := log + [Moved(stream[0])];
      stream := stream[1..];
    }

    // Whether the expect bit clears before the poll times out.
    method ExpectClears() returns (ok: bool)
      ensures ok <==> !refuses && CompletePacket(inbox)
    {
      ok := !refuses && CompletePacket(inbox);
    }

    // Sets the start or go bit and waits for the TPM, which finds its command in
    // the buffer or in the FIFO.
    method Execute(ghost command: seq<U8>) returns (ok: bool)
      requires buffer.Length == CAPACITY && CompletePacket(command) && |command| <= CAPACITY
      requires isCrb ==> buffer[..|command|] == command
      modifies this`inbox, this`stream, buffer
      ensures ok <==> !hangs
      ensures !ok || isCrb ==> inbox == old(inbox) && stream == old(stream)
      ensures !ok || !isCrb ==> buffer[..] == old(buffer[..])
      ensures ok && isCrb ==> buffer[..] == Overlay(Truncated(tpm(command)), old(buffer[..]))
      ensures ok && !isCrb ==> inbox == [] && stream == Offered(tpm(old(inbox)), available)
    {
      if hangs {
        return false;
      }
      if isCrb {
        assert buffer[..TPM_HEADER_SIZE] == command[..TPM_HEADER_SIZE];
        var response := Truncated(tpm(buffer[..LengthField(buffer[..TPM_HEADER_SIZE])]));
        ghost var before := buffer[..];
        forall i | 0 <= i < |response| {
          buffer[i] := response[i];
        }
        assert buffer[..] == Overlay(response, before);
      } else {
        stream := Offered(tpm(inbox), available);
        inbox := [];
      }
      return true;
    }

    // Writes the commandReady bit of a FIFO. A TPM that gets ready has dropped what
    // its FIFO held and what it had still to say; one that does not keeps both.
    method BecomeReady(ready: bool)
      modifies this`inbox, this`stream
      ensures inbox == (if ready then [] else old(inbox)) && stream == (if ready then [] else old(stream))
    {
      if ready {
        inbox, stream := [], [];
      }
    }
  }

  /** The library, bound to one external TPM. */
  class Sst {
    const dev: External
    // The burst budget of the response being read.
    var remainingBurst: nat

    constructor (dev: External)
      ensures this.dev == dev && remainingBurst == 0
    {
      this.dev, remainingBurst := dev, 0;
    }

    /** Where the next response byte comes from. */
    function SourceNow(): Source
      reads this, dev, dev.buffer
    {
      if dev.isCrb then CrbSource(dev.buffer[..]) else FifoSource(dev.stream, remainingBurst, dev.bursts)
    }

    /** The source of a new response: its burst budget starts empty. */
    function FreshSource(): Source
      reads dev, dev.buffer
    {
      if dev.isCrb then CrbSource(dev.buffer[..]) else FifoSource(dev.stream, 0, dev.bursts)
    }

    /** No byte was moved beyond a burst count, and what is left of it is on record. */
    ghost predicate InBudget()
      reads this, dev
    {
      Budget(dev.log).Some? && remainingBurst <= Budget(dev.log).value
    }

    method SendBurst(command: array<U8>, index: nat, len: nat, count: U16) returns (next: nat)
      requires index < len <= command.Length && count > 0
      requires Budget(dev.log) == Some(count as nat)
      modifies dev`inbox, dev`log
      ensures next == index + if count < len - index then count as int else len - index
      ensures dev.inbox == old(dev.inbox) + command[index..next]
      ensures Budget(dev.log).Some?
    {
      next := index;
      var left: nat := count;
      while left > 0 && next < len
        invariant index <= next <= len && left == count - (next - index)
        invariant dev.inbox == old(dev.inbox) + command[index..next]
        invariant Budget(dev.log) == Some(left)
        decreases len - next
      {
        BudgetNext(dev.log, Moved(command[next]));
        dev.WriteFifo(command[next]);
        assert command[index..next + 1] == command[index..next] + [command[next]];
        next := next + 1;
        left := left - 1;
      }
    }

    // The FIFO side of copying the command: what goes out is a prefix, all of it on success.
    method CopyToFifo(command: array<U8>, len: nat) returns (status: ErrorCode)
      requires len <= command.Length && Budget(dev.log).Some?
      modifies dev`bursts, dev`inbox, dev`log
      ensures var (sent, rest, ok) := Send(old(dev.bursts), len);
              && dev.inbox == old(dev.inbox) + command[..sent]
              && dev.bursts == rest
              && status == if ok then Ok else Denied
      ensures Budget(dev.log).Some?
    {
      status := Ok;
      var index := 0;
      ghost var (sent, rest, ok) := Send(dev.bursts, len);
      while index < len
        invariant index <= len && Budget(dev.log).Some?
        invariant dev.inbox == old(dev.inbox) + command[..index]
        invariant var (more, rest', ok') := Send(dev.bursts, len - index);
                  index + more == sent && rest' == rest && ok' == ok
        decreases len - index
      {
        ghost var before := dev.log;
        var burst := dev.ReadBurstCount();
        if burst.None? {
          return Denied;
        }
        BudgetNext(before, Burst(burst.value));
        ghost var from := index;
        index := SendBurst(command, index, len, burst.value);
        assert command[..index] == command[..from] + command[from..index];
      }
    }

    method CopyToCrb(command: array<U8>, len: nat)
      requires len <= CAPACITY <= command.Length && dev.buffer.Length == CAPACITY && command != dev.buffer
      modifies dev.buffer
      ensures dev.buffer[..] == Overlay(command[..len], old(dev.buffer[..]))
    {
      ghost var below := dev.buffer[..];
      assert Overlay(command[..0], below) == below;
      for i := 0 to len
        invariant dev.buffer[..] == Overlay(command[..i], below)
      {
        OverlayNext(command[..i], below, command[i]);
        assert command[..i + 1] == command[..i] + [command[i]];
        dev.buffer[i] := command[i];
      }
    }

    method CopyCommandData(command: array<U8>, len: nat) returns (status: ErrorCode)
      requires len <= CAPACITY <= command.Length && dev.buffer.Length == CAPACITY && command != dev.buffer
      requires Budget(dev.log).Some?
      modifies dev`bursts, dev`inbox, dev`log, dev.buffer
      ensures dev.isCrb ==>
                && status == Ok && dev.bursts == old(dev.bursts) && dev.inbox == old(dev.inbox)
                && dev.buffer[..] == Overlay(command[..len], old(dev.buffer[..]))
      ensures !dev.isCrb ==>
                var (sent, rest, ok) := Send(old(dev.bursts), len);
                && dev.buffer[..] == old(dev.buffer[..])
                && dev.inbox == old(dev.inbox) + command[..sent] && dev.bursts == rest
                && status == if ok && !dev.refuses && CompletePacket(dev.inbox) then Ok else Denied
      ensures Budget(dev.log).Some?
    {
      if dev.isCrb {
        CopyToCrb(command, len);
        return Ok;
      }
      status := CopyToFifo(command, len);
      if status == Ok {
        var clears := dev.ExpectClears();
        if !clears {
          status := Denied;
        }
      }
    }

    // One response byte, through either interface.
    method NextByte(offset: nat) returns (r: Result<U8, ErrorCode>)
      requires dev.isCrb ==> offset < dev.buffer.Length
      requires InBudget()
      modifies this`remainingBurst, dev`stream, dev`bursts, dev`log
      ensures (r, SourceNow()) == ReadByte(old(SourceNow()), offset)
      ensures InBudget()
    {
      if dev.isCrb {
        return Success(dev.buffer[offset]);
      }
      ghost var before := dev.log;
      if remainingBurst == 0 {
        var burst := dev.ReadBurstCount();
        if burst.None? {
          return Failure(Denied);
        }
        BudgetNext(before, Burst(burst.value));
        remainingBurst := burst.value;
      }
      ghost var read := dev.log;
      var byte := dev.ReadFifo();
      if byte.None? {
        return Failure(Denied);
      }
      BudgetNext(read, Moved(byte.value));
      remainingBurst := remainingBurst - 1;
      return Success(byte.value);
    }

    // Reads one byte into its place, `done` bytes into a read that comes to `goal`.
    method Store(
        buffer: array<U8>, from: nat, i: nat, n: nat, ghost before: seq<U8>, ghost done: seq<U8>, ghost goal: Goal)
      returns (error: Option<ErrorCode>)
      requires |done| == i < n && from + n <= buffer.Length == |before| && buffer != dev.buffer
      requires dev.isCrb ==> from + n <= dev.buffer.Length
      requires InBudget() && buffer[..] == Written(before, from, done)
      requires Under(done, SourceNow(), from + i, n - i, goal)
      modifies this`remainingBurst, dev`stream, dev`bursts, dev`log, buffer
      ensures match error
              case Some(e) => goal == Goal(Failure(e), SourceNow(), done) && buffer[..] == old(buffer[..])
              case None =>
                var more := done + [buffer[from + i]];
                && buffer[..] == Written(before, from, more)
                && Under(more, SourceNow(), from + i + 1, n - i - 1, goal)
      ensures InBudget()
    {
      UnderNext(done, SourceNow(), from + i, n - i, goal);
      var offset := from + i;
      var byte := NextByte(offset);
      if byte.Failure? {
        return Some(byte.error);
      }
      WrittenNext(before, from, done, byte.value);
      buffer[offset] := byte.value;
      return None;
    }

    // Fills `buffer[from..from + n]` with the bytes at those offsets, stopping at an error.
    method Fill(buffer: array<U8>, from: nat, n: nat) returns (error: Option<ErrorCode>)
      requires from + n <= buffer.Length && buffer != dev.buffer
      requires dev.isCrb ==> from + n <= dev.buffer.Length
      requires InBudget()
      modifies this`remainingBurst, dev`stream, dev`bursts, dev`log, buffer
      ensures var goal := GoalOf(old(SourceNow()), from, n);
              && SourceNow() == goal.last
              && error == (match goal.read case Failure(e) => Some(e) case Success(_) => None)
              && buffer[..] == Written(old(buffer[..]), from, goal.all)
      ensures InBudget()
    {
      ghost var goal, before := GoalOf(SourceNow(), from, n), buffer[..];
      ghost var done: seq<U8> := [];
      UnderFirst(SourceNow(), from, n);
      WrittenNone(before, from);
      for i := 0 to n
        invariant InBudget() && |done| == i
        invariant buffer[..] == Written(before, from, done)
        invariant Under(done, SourceNow(), from + i, n - i, goal)
      {
        error := Store(buffer, from, i, n, before, done, goal);
        if error.Some? {
          return;
        }
        done := done + [buffer[from + i]];
      }
      UnderLast(done, SourceNow(), from + n, goal);
      return None;
    }

    // What follows the header of a packet of `length` bytes.
    method ReadTpmBody(buffer: array<U8>, capacity: nat, length: nat) returns (r: Result<nat, ErrorCode>)
      requires capacity <= buffer.Length && buffer != dev.buffer && TPM_HEADER_SIZE <= capacity
      requires dev.isCrb ==> dev.buffer.Length == CAPACITY
      requires PacketLength(buffer[..TPM_HEADER_SIZE], capacity) == Success(length)
      requires InBudget()
      modifies this`remainingBurst, dev`stream, dev`bursts, dev`log, buffer
      ensures SourceNow() == ReadBody(old(buffer[..TPM_HEADER_SIZE]), old(SourceNow()), capacity).1
      ensures r == Counted(ReadBody(old(buffer[..TPM_HEADER_SIZE]), old(SourceNow()), capacity).0)
      ensures buffer[..] ==
              Written(old(buffer[..]), 0, BodyArrived(old(buffer[..TPM_HEADER_SIZE]), old(SourceNow()), capacity))
      ensures InBudget()
    {
      ghost var before, bytes := buffer[..], Arrived(SourceNow(), TPM_HEADER_SIZE, length - TPM_HEADER_SIZE);
      var failed := Fill(buffer, TPM_HEADER_SIZE, length - TPM_HEADER_SIZE);
      WrittenAfter(before, TPM_HEADER_SIZE, bytes);
      if failed.Some? {
        return Failure(failed.value);
      }
      return Success(length);
    }

    // The response into the first `capacity` bytes of `buffer`.
    method ReadTpmResponse(buffer: array<U8>, capacity: nat) returns (r: Result<nat, ErrorCode>)
      requires capacity <= buffer.Length && buffer != dev.buffer
      requires dev.isCrb ==> dev.buffer.Length == CAPACITY
      requires InBudget()
      modifies this`remainingBurst, dev`stream, dev`bursts, dev`log, buffer
      ensures SourceNow() == ReadResponse(old(SourceNow()), capacity).1
      ensures r == Counted(ReadResponse(old(SourceNow()), capacity).0)
      ensures buffer[..] == Written(old(buffer[..]), 0, ResponseArrived(old(SourceNow()), capacity))
      ensures InBudget()
    {
      ghost var before := buffer[..];
      if !(TPM_HEADER_SIZE <= capacity <= CAPACITY) {
        WrittenNone(before, 0);
        return Failure(InvalidParameters);
      }
      var failed := Fill(buffer, 0, TPM_HEADER_SIZE);
      if failed.Some? {
        return Failure(failed.value);
      }
      ghost var head := ReadBytes(old(SourceNow()), 0, TPM_HEADER_SIZE).0.value;
      WrittenFront(before, head);
      var length := PacketLength(buffer[..TPM_HEADER_SIZE], capacity);
      if length.Failure? {
        return Failure(length.error);
      }
      WrittenOver(before, head, BodyArrived(head, SourceNow(), capacity));
      r := ReadTpmBody(buffer, capacity, length.value);
    }

    method CopyResponseData(buffer: array<U8>, capacity: nat) returns (r: Result<nat, ErrorCode>)
      requires capacity <= buffer.Length && buffer != dev.buffer
      requires dev.isCrb ==> dev.buffer.Length == CAPACITY
      requires Budget(dev.log).Some?
      modifies this`remainingBurst, dev`stream, dev`bursts, dev`log, buffer
      ensures r == Counted(ReadResponse(old(FreshSource()), capacity).0)
      ensures buffer[..] == Written(old(buffer[..]), 0, ResponseArrived(old(FreshSource()), capacity))
      ensures Budget(dev.log).Some?
    {
      remainingBurst := 0;
      r := ReadTpmResponse(buffer, capacity);
    }

    // The command, checked and copied out of the page.
    method TakeCommand(page: TpmSpec.Page, buffer: array<U8>) returns (r: Result<nat, ErrorCode>)
      requires |page.data| == CAPACITY == buffer.Length
      modifies buffer
      ensures match Command(page)
              case Failure(e) => r == Failure(e)
              case Success(command) => r == Success(|command|) && buffer[..|command|] == command
    {
      if !(TPM_HEADER_SIZE <= page.commandSize <= CAPACITY) || !(TPM_HEADER_SIZE <= page.responseSize <= CAPACITY) {
        return Failure(InvalidParameters);
      }
      forall i | 0 <= i < TPM_HEADER_SIZE {
        buffer[i] := page.data[i];
      }
      assert buffer[..TPM_HEADER_SIZE] == page.data[..TPM_HEADER_SIZE];
      var length := PacketLength(buffer[..TPM_HEADER_SIZE], page.commandSize);
      if length.Failure? {
        return Failure(length.error);
      }
      forall i | TPM_HEADER_SIZE <= i < length.value {
        buffer[i] := page.data[i];
      }
      assert buffer[..length.value] == page.data[..length.value];
      return Success(length.value);
    }

    // The response, read into the local buffer and from there into page `l`.
    method ReturnResponse(crb: array<TpmSpec.Page>, l: nat, buffer: array<U8>) returns (status: ErrorCode)
      requires l < crb.Length && |crb[l].data| == CAPACITY == buffer.Length == dev.buffer.Length
      requires crb[l].responseSize <= CAPACITY && buffer != dev.buffer && Budget(dev.log).Some?
      modifies this`remainingBurst, dev`stream, dev`bursts, dev`log, buffer, crb
      ensures match ReadResponse(old(FreshSource()), old(crb[l]).responseSize).0
              case Failure(e) => status == e && crb[..] == old(crb[..])
              case Success(response) =>
                && status == Ok
                && crb[..] == old(crb[..])[l := old(crb[l]).(data := Overlay(response, old(crb[l]).data))]
      ensures Budget(dev.log).Some?
    {
      var page := crb[l];
      ghost var before := buffer[..];
      ghost var read := ReadResponse(FreshSource(), page.responseSize).0;
      var response := CopyResponseData(buffer, page.responseSize);
      if response.Failure? {
        return response.error;
      }
      WrittenFront(before, read.value);
      crb[l] := page.(data := buffer[..response.value] + page.data[response.value..]);
      return Ok;
    }

    // Hands the command over and has the TPM execute it; what it answers is then to be read.
    method Transfer(buffer: array<U8>, len: nat, ghost command: seq<U8>) returns (status: ErrorCode)
      requires len == |command| <= CAPACITY == buffer.Length == dev.buffer.Length && buffer != dev.buffer
      requires buffer[..len] == command && CompletePacket(command) && Budget(dev.log).Some?
      modifies dev, dev.buffer
      ensures match Transmit(dev.tpm, old(dev.AsDevice()), command)
              case Failure(e) => status == e
              case Success(source) => status == Ok && FreshSource() == source
      ensures dev.inbox == if dev.isCrb then old(dev.inbox)
                           else if Executes(old(dev.AsDevice()), command) then []
                           else Received(old(dev.AsDevice()), command)
      ensures Budget(dev.log).Some?
    {
      assert forall n | 0 <= n <= len :: buffer[..n] == command[..n];
      status := CopyCommandData(buffer, len);
      if status != Ok {
        return;
      }
      if dev.isCrb {
        OverlayFront(command, old(dev.buffer[..]));
      }
      var done := dev.Execute(command);
      if !done {
        return Denied;
      }
    }

    /** One command: the internal page `l` gets the response, or stays as it was. */
    method StartCommand(crb: array<TpmSpec.Page>, l: nat) returns (status: ErrorCode)
      requires l < crb.Length && dev.buffer.Length == CAPACITY && |crb[l].data| == CAPACITY
      requires Budget(dev.log).Some?
      modifies this`remainingBurst, dev, dev.buffer, crb
      ensures var (code, data) := Start(dev.tpm, old(dev.AsDevice()), old(crb[l]));
              status == code && crb[..] == old(crb[..])[l := old(crb[l]).(data := data)]
      ensures dev.inbox == FifoAfter(old(dev.AsDevice()), old(crb[l]))
      ensures Budget(dev.log).Some?
    {
      var page := crb[l];
      var buffer := new U8[CAPACITY](_ => 0);
      var length := TakeCommand(page, buffer);
      assert crb[..] == old(crb[..])[l := page.(data := page.data)];
      if length.Failure? {
        return length.error;
      }
      CommandIsComplete(page);
      status := Transfer(buffer, length.value, Command(page).value);
      if status != Ok {
        return;
      }
      status := ReturnResponse(crb, l, buffer);
    }

    /**
     * commandReady and goIdle. A CRB is asked for the one or the other, and two
     * polls tell whether it took the request and got there; a FIFO is made ready
     * for both, and one poll tells. The polls are represented by their outcomes.
     */
    method ReadyOrIdle(taken: bool, arrived: bool) returns (status: ErrorCode)
      modifies dev`inbox, dev`stream
      ensures status == if (dev.isCrb ==> taken) && arrived then Ok else Denied
      ensures dev.inbox == if !dev.isCrb && status == Ok then [] else old(dev.inbox)
    {
      if dev.isCrb {
        if !taken {
          return Denied;
        }
      } else {
        dev.BecomeReady(arrived);
      }
      status := if arrived then Ok else Denied;
    }
  }
}
