/**
 * Time as the library measures it: a 64-bit counter that wraps, delays that must
 * not end early, and register polls that must not give up early.
 */
module TpmTimer {
  import opened Bits
  import opened Outcomes

  const MAX_U64: U64 := 0xFFFF_FFFF_FFFF_FFFF
  const MICROSECONDS: nat := 1_000_000

  /** Counter ticks in a number of microseconds, rounded up and capped. */
  function CounterTicks(frequency: U64, microseconds: U64): U64 {
    var ticks := (frequency * microseconds + (MICROSECONDS - 1)) / MICROSECONDS;
    if ticks < MAX_U64 then ticks else MAX_U64
  }

  lemma RoundUp(product: int, n: int)
    requires product >= 0
    ensures n >= (product + (MICROSECONDS - 1)) / MICROSECONDS <==> n * MICROSECONDS >= product
  {
    var q := (product + 999_999) / 1_000_000;
    assert 1_000_000 * q <= product + 999_999 < 1_000_000 * q + 1_000_000;
  }

  /** A wait of `n` ticks is long enough, or the longest there is, exactly from that number on. */
  lemma TicksAreLeast(frequency: U64, microseconds: U64, n: U64)
    ensures n >= CounterTicks(frequency, microseconds) <==>
            n * 1_000_000 >= frequency * microseconds || n == 0xFFFF_FFFF_FFFF_FFFF
  {
    var product := frequency * microseconds;
    RoundUp(product, n);
  }

  lemma ProductMonotone(a: nat, b: nat, a': nat, b': nat)
    requires a <= a' && b <= b'
    ensures a * b <= a' * b'
  {
    assert a' * b' - a * b == a' * (b' - b) + (a' - a) * b;
    assert a' * (b' - b) >= 0 && (a' - a) * b >= 0;
  }

  /** More time at a higher rate is never fewer ticks. */
  lemma TicksMonotone(f: U64, us: U64, f': U64, us': U64)
    requires f <= f' && us <= us'
    ensures CounterTicks(f, us) <= CounterTicks(f', us')
  {
    var n := CounterTicks(f', us');
    TicksAreLeast(f', us', n);
    TicksAreLeast(f, us, n);
    ProductMonotone(f, us, f', us');
  }

  /** What the counter shows `t` ticks after it showed `origin`. */
  function Counter(origin: U64, t: nat): U64 {
    (origin + t) % 0x1_0000_0000_0000_0000
  }

  function WrappingSub(a: U64, b: U64): U64 {
    (a - b) % 0x1_0000_0000_0000_0000
  }

  lemma ModShift(d: int, turns: nat)
    requires -0x1_0000_0000_0000_0000 < d < 0x1_0000_0000_0000_0000
    requires d + turns * 0x1_0000_0000_0000_0000 >= 0
    ensures d % 0x1_0000_0000_0000_0000 <= d + turns * 0x1_0000_0000_0000_0000
    ensures d + turns * 0x1_0000_0000_0000_0000 < 0x1_0000_0000_0000_0000 ==>
              d % 0x1_0000_0000_0000_0000 == d + turns * 0x1_0000_0000_0000_0000
  {
  }

  /** Wrap-around subtraction measures true time, as long as that is below one full turn. */
  lemma ElapsedAcrossWrap(origin: U64, t0: nat, t1: nat)
    requires t0 <= t1
    ensures WrappingSub(Counter(origin, t1), Counter(origin, t0)) <= t1 - t0
    ensures t1 - t0 < 0x1_0000_0000_0000_0000 ==>
              WrappingSub(Counter(origin, t1), Counter(origin, t0)) == t1 - t0
  {
    var m := 0x1_0000_0000_0000_0000;
    var q1, q0 := (origin + t1) / m, (origin + t0) / m;
    assert origin + t1 == q1 * m + Counter(origin, t1);
    assert origin + t0 == q0 * m + Counter(origin, t0);
    assert q1 >= q0;
    ModShift(Counter(origin, t1) - Counter(origin, t0), q1 - q0);
  }

  /** The true moment of each successive counter reading. */
  type Clock = nat -> nat

  ghost predicate Passing(clock: Clock) {
    forall i: nat, j: nat | i <= j :: clock(i) <= clock(j)
  }

  // Whether the counter, at reading `i`, says that `ticks` have gone by since reading `from`.
  predicate Expired(origin: U64, clock: Clock, from: nat, i: nat, ticks: U64) {
    WrappingSub(Counter(origin, clock(i)), Counter(origin, clock(from))) >= ticks
  }

  ghost predicate Ends(origin: U64, clock: Clock, from: nat, ticks: U64) {
    exists i: nat :: i > from && Expired(origin, clock, from, i, ticks)
  }

  /** Time goes on: after every reading some later one says that `ticks` have gone by. */
  ghost predicate GoesOn(origin: U64, clock: Clock, ticks: U64) {
    forall from: nat :: Ends(origin, clock, from, ticks)
  }

  /**
   * The delay loop, started at reading `from` and ended by reading `k`. It never
   * ends before `ticks` true ticks, wherever the counter started, and no reading
   * within one turn of the counter is let pass once they have gone by.
   */
  method Delay(origin: U64, clock: Clock, from: nat, ticks: U64) returns (k: nat)
    requires Passing(clock) && GoesOn(origin, clock, ticks)
    ensures k > from && clock(k) - clock(from) >= ticks
    ensures forall j | from < j < k && clock(j) - clock(from) < 0x1_0000_0000_0000_0000 ::
              clock(j) - clock(from) < ticks
  {
    assert Ends(origin, clock, from, ticks);
    ghost var stop: nat :| stop > from && Expired(origin, clock, from, stop, ticks);
    var start := Counter(origin, clock(from));
    k := from + 1;
    while WrappingSub(Counter(origin, clock(k)), start) < ticks
      invariant from < k <= stop
      invariant forall j | from < j < k :: !Expired(origin, clock, from, j, ticks)
      decreases stop - k
    {
      k := k + 1;
    }
    ElapsedAcrossWrap(origin, clock(from), clock(k));
    forall j | from < j < k && clock(j) - clock(from) < 0x1_0000_0000_0000_0000
      ensures clock(j) - clock(from) < ticks
    {
      ElapsedAcrossWrap(origin, clock(from), clock(j));
      assert !Expired(origin, clock, from, j, ticks);
    }
  }

  /** A delay of some microseconds lasts them, whenever the counter can count that far. */
  lemma DelayIsLongEnough(frequency: U64, microseconds: U64, elapsed: nat)
    requires elapsed >= CounterTicks(frequency, microseconds)
    requires frequency * microseconds <= 0xFFFF_FFFF_FFFF_FFFF * 1_000_000
    ensures elapsed * 1_000_000 >= frequency * microseconds
  {
    TicksAreLeast(frequency, microseconds, CounterTicks(frequency, microseconds));
  }

  /** What a poll waits for. */
  predicate Shows(value: U32, bitSet: U32, bitClear: U32) {
    And(value, bitSet) == bitSet && And(value, bitClear) == 0
  }

  lemma WordWidth()
    ensures Pow2(32) == 0x1_0000_0000
  {
    assert Pow2(8) == 0x100;
    assert Pow2(16) == 0x1_0000;
    assert Pow2(24) == 0x100_0000;
  }

  // The digits of what a mask leaves are those of both words.
  predicate Digits(value: nat, mask: nat, want: nat) {
    forall i: nat | i < 32 :: Has(value, i) && Has(mask, i) <==> Has(want, i)
  }

  lemma MaskIff(value: U32, mask: U32, want: U32)
    ensures And(value, mask) == want <==> Digits(value, mask, want)
  {
    WordWidth();
    OperatorsFit(value, mask, 32);
    forall i: nat
      ensures Has(And(value, mask), i) <==> Has(value, i) && Has(mask, i)
    {
      HasOfAnd(value, mask, i);
    }
    assert Digits(value, mask, And(value, mask));
    if Digits(value, mask, want) {
      SameDigits(And(value, mask), want, 32);
    }
  }

  /** Every bit that is one in `mask` is one in the value. */
  predicate AllOnes(value: nat, mask: nat) {
    forall i: nat | i < 32 && Has(mask, i) :: Has(value, i)
  }

  /** Every bit that is one in `mask` is zero in the value. */
  predicate AllZeros(value: nat, mask: nat) {
    forall i: nat | i < 32 && Has(mask, i) :: !Has(value, i)
  }

  /** Bit by bit: the poll waits for every bit of `bitSet` to be one and every bit of `bitClear` to be zero. */
  lemma ShowsIff(value: U32, bitSet: U32, bitClear: U32)
    ensures Shows(value, bitSet, bitClear) <==> AllOnes(value, bitSet) && AllZeros(value, bitClear)
  {
    MaskIff(value, bitSet, bitSet);
    MaskIff(value, bitClear, 0);
    forall i: nat
      ensures !Has(0, i)
    {
      HasOfZero(i);
    }
    assert Digits(value, bitSet, bitSet) <==> AllOnes(value, bitSet);
    assert Digits(value, bitClear, 0) <==> AllZeros(value, bitClear);
  }

  /** What a look at a register reads: all of it, or the low byte of a FIFO's. */
  function Look(isCrb: bool, word: U32): U32 {
    WordWidth();
    OperatorsFit(word, 0xFF, 32);
    if isCrb then word else And(word, 0xFF)
  }

  lemma {:induction false} LowOnes(n: nat, i: nat)
    ensures Has(Pow2(n) - 1, i) <==> i < n
    decreases n
  {
    if n == 0 {
      HasOfZero(i);
    } else {
      assert (Pow2(n) - 1) / 2 == Pow2(n - 1) - 1 && (Pow2(n) - 1) % 2 == 1;
      if i > 0 {
        LowOnes(n - 1, i - 1);
      }
    }
  }

  /** On a FIFO a look sees the eight lowest bits of the register. */
  lemma LookAt(isCrb: bool, word: U32, i: nat)
    ensures Has(Look(isCrb, word), i) <==> Has(word, i) && (isCrb || i < 8)
  {
    assert Pow2(8) == 0x100;
    HasOfAnd(word, 0xFF, i);
    LowOnes(8, i);
  }

  /**
   * The register poll. It first delays, from reading 0 on; its timeout starts at
   * reading `begin`, and from then on every look, which finds `words(i)`, is
   * followed by reading `i`. It succeeds exactly when some look finds the bits
   * before any earlier look has run out of time; it gives up only after the
   * whole timeout.
   */
  method WaitRegisterBits(
        origin: U64, clock: Clock, words: nat -> U32, isCrb: bool, bitSet: U32, bitClear: U32,
        delayTicks: U64, ticks: U64)
      returns (ok: bool, begin: nat)
    requires Passing(clock) && GoesOn(origin, clock, delayTicks) && GoesOn(origin, clock, ticks)
    ensures begin > 0 && clock(begin) - clock(0) >= delayTicks
    ensures ok <==> exists i ::
                      && i > begin && Shows(Look(isCrb, words(i)), bitSet, bitClear)
                      && forall j | begin < j < i :: !Expired(origin, clock, begin, j, ticks)
    ensures !ok ==> exists i ::
                      && i > begin && clock(i) - clock(begin) >= ticks
                      && forall j | begin < j <= i :: !Shows(Look(isCrb, words(j)), bitSet, bitClear)
  {
    var delayed := Delay(origin, clock, 0, delayTicks);
    begin := delayed + 1;
    assert Ends(origin, clock, begin, ticks);
    ghost var stop: nat :| stop > begin && Expired(origin, clock, begin, stop, ticks);
    var start := Counter(origin, clock(begin));
    var i := begin + 1;
    while true
      invariant begin < i <= stop
      invariant forall j | begin < j < i :: !Shows(Look(isCrb, words(j)), bitSet, bitClear)
      invariant forall j | begin < j < i :: !Expired(origin, clock, begin, j, ticks)
      decreases stop - i
    {
      if Shows(Look(isCrb, words(i)), bitSet, bitClear) {
        return true, begin;
      }
      if WrappingSub(Counter(origin, clock(i)), start) >= ticks {
        ElapsedAcrossWrap(origin, clock(begin), clock(i));
        assert Expired(origin, clock, begin, i, ticks);
        return false, begin;
      }
      i := i + 1;
    }
  }
}
