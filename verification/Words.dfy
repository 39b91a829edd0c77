/** Byte sequences as numbers, in both orders, and as 64-bit registers. */
module Words {
  import opened Outcomes

  function Pow256(k: nat): (p: nat)
    ensures p > 0
  {
    if k == 0 then 1 else 0x100 * Pow256(k - 1)
  }

  // A name for it, lest the recursive functions below be unrolled at every mention.
  const REGISTER_BYTES: nat := 8

  /** Least significant byte first. */
  function FromLe(bytes: seq<U8>): nat {
    if bytes == [] then 0 else bytes[0] as nat + 0x100 * FromLe(bytes[1..])
  }

  lemma {:induction false} LeFits(bytes: seq<U8>)
    ensures FromLe(bytes) < Pow256(|bytes|)
  {
    if bytes != [] {
      LeFits(bytes[1..]);
    }
  }

  function ToLe(n: nat, k: nat): (bytes: seq<U8>)
    ensures |bytes| == k
    decreases k
  {
    if k == 0 then [] else [n % 0x100] + ToLe(n / 0x100, k - 1)
  }

  /** Most significant byte first. */
  function FromBe(bytes: seq<U8>): nat {
    if bytes == [] then 0 else FromBe(bytes[..|bytes| - 1]) * 0x100 + bytes[|bytes| - 1] as nat
  }

  function ToBe(n: nat, k: nat): (bytes: seq<U8>)
    ensures |bytes| == k
    decreases k
  {
    if k == 0 then [] else ToBe(n / 0x100, k - 1) + [n % 0x100]
  }

  function Reverse(bytes: seq<U8>): (r: seq<U8>)
    ensures |r| == |bytes|
  {
    if bytes == [] then [] else Reverse(bytes[1..]) + [bytes[0]]
  }

  lemma {:induction false} LeInverse(n: nat, k: nat)
    requires n < Pow256(k)
    ensures FromLe(ToLe(n, k)) == n
    decreases k
  {
    if k > 0 {
      LeInverse(n / 0x100, k - 1);
      assert ToLe(n, k)[1..] == ToLe(n / 0x100, k - 1);
    }
  }

  lemma LowestDigit(digit: U8, above: nat)
    ensures (digit as nat + 0x100 * above) % 0x100 == digit && (digit as nat + 0x100 * above) / 0x100 == above
  {
  }

  lemma {:induction false} LeInverseBytes(bytes: seq<U8>)
    ensures ToLe(FromLe(bytes), |bytes|) == bytes
  {
    if bytes != [] {
      LeInverseBytes(bytes[1..]);
      LowestDigit(bytes[0], FromLe(bytes[1..]));
      assert bytes == [bytes[0]] + bytes[1..];
    }
  }

  /** Reading from one end is reading the reverse from the other. */
  lemma {:induction false} BeOfReverse(bytes: seq<U8>)
    ensures FromBe(Reverse(bytes)) == FromLe(bytes)
  {
    if bytes != [] {
      var r := Reverse(bytes);
      assert r[..|r| - 1] == Reverse(bytes[1..]);
      BeOfReverse(bytes[1..]);
    }
  }

  lemma {:induction false} ReverseAppend(bytes: seq<U8>, b: U8)
    ensures Reverse(bytes + [b]) == [b] + Reverse(bytes)
  {
    if bytes == [] {
      assert [] + [b] == [b] && [b][1..] == [];
    } else {
      assert (bytes + [b])[1..] == bytes[1..] + [b];
      ReverseAppend(bytes[1..], b);
    }
  }

  lemma {:induction false} ReverseTwice(bytes: seq<U8>)
    ensures Reverse(Reverse(bytes)) == bytes
  {
    if bytes != [] {
      ReverseTwice(bytes[1..]);
      ReverseAppend(Reverse(bytes[1..]), bytes[0]);
    }
  }

  lemma {:induction false} BeIsReversedLe(n: nat, k: nat)
    ensures ToBe(n, k) == Reverse(ToLe(n, k))
    decreases k
  {
    if k > 0 {
      BeIsReversedLe(n / 0x100, k - 1);
      assert ToLe(n, k)[1..] == ToLe(n / 0x100, k - 1);
    }
  }

  lemma BeInverseBytes(bytes: seq<U8>)
    ensures ToBe(FromBe(bytes), |bytes|) == bytes
    ensures FromBe(bytes) < Pow256(|bytes|)
  {
    LeFits(Reverse(bytes));
    BeOfReverse(Reverse(bytes));
    ReverseTwice(bytes);
    LeInverseBytes(Reverse(bytes));
    BeIsReversedLe(FromBe(bytes), |bytes|);
  }

  lemma BeInverse(n: nat, k: nat)
    requires n < Pow256(k)
    ensures FromBe(ToBe(n, k)) == n
  {
    BeIsReversedLe(n, k);
    BeOfReverse(ToLe(n, k));
    LeInverse(n, k);
  }

  /** Four bytes, the most significant first. */
  lemma FourBigEndian(bytes: seq<U8>)
    requires |bytes| == 4
    ensures FromBe(bytes) ==
            bytes[0] as nat * 0x100_0000 + bytes[1] as nat * 0x1_0000 + bytes[2] as nat * 0x100 + bytes[3] as nat
  {
    var three, two, one := bytes[..3], bytes[..2], bytes[..1];
    assert three[..2] == two && two[..1] == one && one[..0] == [];
    assert FromBe(one) == bytes[0] as nat;
    assert FromBe(two) == bytes[0] as nat * 0x100 + bytes[1] as nat;
    assert FromBe(three) == FromBe(two) * 0x100 + bytes[2] as nat;
  }

  // --- Registers ----------------------------------------------------------------------

  lemma EightBytes()
    ensures Pow256(8) == 0x1_0000_0000_0000_0000
  {
    assert Pow256(4) == 0x1_0000_0000;
  }

  /** The eight bytes of a register, the least significant first. */
  lemma RegisterBytes(x: U64)
    ensures ToLe(x, REGISTER_BYTES) ==
            [x % 0x100, x / 0x100 % 0x100, x / 0x1_0000 % 0x100, x / 0x100_0000 % 0x100,
             x / 0x1_0000_0000 % 0x100, x / 0x100_0000_0000 % 0x100, x / 0x1_0000_0000_0000 % 0x100,
             x / 0x100_0000_0000_0000 % 0x100]
  {
    var a: nat := x;
    var b, c, d := a / 0x100, a / 0x1_0000, a / 0x100_0000;
    var e, f, g, h := a / 0x1_0000_0000, a / 0x100_0000_0000, a / 0x1_0000_0000_0000, a / 0x100_0000_0000_0000;
    assert b / 0x100 == c && c / 0x100 == d && d / 0x100 == e && e / 0x100 == f && f / 0x100 == g && g / 0x100 == h;
    assert ToLe(h, 1) == [h % 0x100] + ToLe(h / 0x100, 0);
    assert ToLe(g, 2) == [g % 0x100, h % 0x100];
    assert ToLe(f, 3) == [f % 0x100, g % 0x100, h % 0x100];
    assert ToLe(e, 4) == [e % 0x100, f % 0x100, g % 0x100, h % 0x100];
    assert ToLe(d, 5) == [d % 0x100] + ToLe(e, 4);
    assert ToLe(c, 6) == [c % 0x100] + ToLe(d, 5);
    assert ToLe(b, 7) == [b % 0x100] + ToLe(c, 6);
    assert ToLe(a, REGISTER_BYTES) == [a % 0x100] + ToLe(b, 7);
  }

  /** `u64::from_le_bytes`. */
  function Le64(bytes: seq<U8>): (r: U64)
    requires |bytes| == 8
    ensures r == FromLe(bytes)
  {
    EightBytes();
    LeFits(bytes);
    FromLe(bytes)
  }

  /** `u64::from_be_bytes`. */
  function Be64(bytes: seq<U8>): (r: U64)
    requires |bytes| == 8
    ensures r == FromBe(bytes)
  {
    EightBytes();
    BeInverseBytes(bytes);
    FromBe(bytes)
  }

  lemma Le64Inverse(x: U64)
    ensures Le64(ToLe(x, REGISTER_BYTES)) == x
  {
    EightBytes();
    LeInverse(x, 8);
  }

  lemma Le64InverseBytes(bytes: seq<U8>)
    requires |bytes| == 8
    ensures ToLe(Le64(bytes), REGISTER_BYTES) == bytes
  {
    LeInverseBytes(bytes);
  }

  lemma Be64Inverse(x: U64)
    ensures Be64(ToBe(x, REGISTER_BYTES)) == x
  {
    EightBytes();
    BeInverse(x, 8);
  }

  lemma Be64InverseBytes(bytes: seq<U8>)
    requires |bytes| == 8
    ensures ToBe(Be64(bytes), REGISTER_BYTES) == bytes
  {
    BeInverseBytes(bytes);
  }

  function Zeros(n: nat): (r: seq<U8>)
    ensures |r| == n && forall i | 0 <= i < n :: r[i] == 0
  {
    seq(n, i => 0)
  }

  /** Bytes in groups of eight, the last padded with zeros. */
  function RegistersOf(bytes: seq<U8>): (regs: seq<U64>)
    ensures |regs| == (|bytes| + 7) / 8
  {
    if bytes == [] then []
    else if |bytes| < 8 then [Le64(bytes + Zeros(8 - |bytes|))]
    else [Le64(bytes[..8])] + RegistersOf(bytes[8..])
  }

  function BytesOf(regs: seq<U64>): (bytes: seq<U8>)
    ensures |bytes| == 8 * |regs|
  {
    if regs == [] then [] else ToLe(regs[0], REGISTER_BYTES) + BytesOf(regs[1..])
  }

  /** Unpacking gives the bytes back, and then the padding. */
  lemma {:induction false} UnpackPacked(bytes: seq<U8>)
    ensures |BytesOf(RegistersOf(bytes))| >= |bytes|
    ensures BytesOf(RegistersOf(bytes)) == bytes + Zeros(8 * ((|bytes| + 7) / 8) - |bytes|)
    decreases |bytes|
  {
    if bytes == [] {
    } else if |bytes| < 8 {
      Le64InverseBytes(bytes + Zeros(8 - |bytes|));
      assert RegistersOf(bytes)[1..] == [];
    } else {
      Le64InverseBytes(bytes[..8]);
      UnpackPacked(bytes[8..]);
      assert RegistersOf(bytes)[1..] == RegistersOf(bytes[8..]);
      assert bytes == bytes[..8] + bytes[8..];
    }
  }

  /** Nothing is padded when the bytes fill their registers. */
  lemma {:induction false} UnpackExact(bytes: seq<U8>)
    requires |bytes| % 8 == 0
    ensures BytesOf(RegistersOf(bytes)) == bytes
    decreases |bytes|
  {
    if bytes != [] {
      Le64InverseBytes(bytes[..8]);
      UnpackExact(bytes[8..]);
      assert RegistersOf(bytes)[1..] == RegistersOf(bytes[8..]);
      assert bytes == bytes[..8] + bytes[8..];
    }
  }

  /** Packing what was unpacked gives the registers back. */
  lemma {:induction false} PackUnpacked(regs: seq<U64>)
    ensures RegistersOf(BytesOf(regs)) == regs
  {
    if regs != [] {
      var bytes := BytesOf(regs);
      assert bytes[..8] == ToLe(regs[0], REGISTER_BYTES) && bytes[8..] == BytesOf(regs[1..]);
      Le64Inverse(regs[0]);
      PackUnpacked(regs[1..]);
    }
  }

  /** A single register of a payload, as its accessor reads it. */
  function RegisterAt(bytes: seq<U8>, index: nat): (r: U64)
    requires 8 * index + 8 <= |bytes|
  {
    Le64(bytes[8 * index..8 * index + 8])
  }

  lemma {:induction false} RegisterAtIndex(bytes: seq<U8>, index: nat)
    requires 8 * index + 8 <= |bytes|
    ensures RegistersOf(bytes)[index] == RegisterAt(bytes, index)
    decreases index
  {
    if index > 0 {
      RegisterAtIndex(bytes[8..], index - 1);
      assert bytes[8..][8 * (index - 1)..8 * (index - 1) + 8] == bytes[8 * index..8 * index + 8];
    }
  }

  /** Register `k` of packed bytes holds bytes `8 * k` and on, and zeros past the end. */
  lemma {:induction false} RegisterLayout(bytes: seq<U8>, k: nat)
    requires k < (|bytes| + 7) / 8
    ensures forall j | 0 <= j < 8 ::
              ToLe(RegistersOf(bytes)[k], REGISTER_BYTES)[j] == if 8 * k + j < |bytes| then bytes[8 * k + j] else 0
    decreases k
  {
    if |bytes| < 8 {
      Le64InverseBytes(bytes + Zeros(8 - |bytes|));
    } else if k == 0 {
      Le64InverseBytes(bytes[..8]);
    } else {
      RegisterLayout(bytes[8..], k - 1);
      assert RegistersOf(bytes)[1..] == RegistersOf(bytes[8..]);
    }
  }

  // Pieces of eight bytes, one after another.
  function Concat(pieces: seq<seq<U8>>): seq<U8> {
    if pieces == [] then [] else pieces[0] + Concat(pieces[1..])
  }

  lemma SliceBehind(front: seq<U8>, rest: seq<U8>, k: nat)
    requires |front| == 8 && k >= 1 && 8 * k <= |rest|
    ensures (front + rest)[8 * k..8 * k + 8] == rest[8 * (k - 1)..8 * (k - 1) + 8]
  {
  }

  lemma {:induction false} PieceAt(pieces: seq<seq<U8>>, k: nat)
    requires k < |pieces| && forall i | 0 <= i < |pieces| :: |pieces[i]| == 8
    ensures |Concat(pieces)| == 8 * |pieces|
    ensures Concat(pieces)[8 * k..8 * k + 8] == pieces[k]
    decreases |pieces|
  {
    var rest := pieces[1..];
    if rest == [] {
      assert Concat(rest) == [];
      assert pieces[0] + [] == pieces[0];
    } else {
      PieceAt(rest, if k == 0 then 0 else k - 1);
      if k > 0 {
        SliceBehind(pieces[0], Concat(rest), k);
      }
    }
  }

  function Pieces(regs: seq<U64>): (r: seq<seq<U8>>)
    ensures |r| == |regs| && forall i | 0 <= i < |r| :: |r[i]| == 8
  {
    if regs == [] then [] else [ToLe(regs[0], REGISTER_BYTES)] + Pieces(regs[1..])
  }

  lemma {:induction false} PiecesOf(regs: seq<U64>, k: nat)
    requires k < |regs|
    ensures Pieces(regs)[k] == ToLe(regs[k], REGISTER_BYTES)
    decreases k
  {
    if k > 0 {
      PiecesOf(regs[1..], k - 1);
    }
  }

  lemma {:induction false} BytesAreConcat(regs: seq<U64>)
    ensures BytesOf(regs) == Concat(Pieces(regs))
  {
    if regs != [] {
      BytesAreConcat(regs[1..]);
      assert Pieces(regs)[1..] == Pieces(regs[1..]);
    }
  }

  /** Bytes `8 * k` and on of unpacked registers are those of register `k`. */
  lemma BytesLayout(regs: seq<U64>, k: nat)
    requires k < |regs|
    ensures BytesOf(regs)[8 * k..8 * k + 8] == ToLe(regs[k], REGISTER_BYTES)
  {
    BytesAreConcat(regs);
    PieceAt(Pieces(regs), k);
    PiecesOf(regs, k);
  }

  // --- Reads under way ------------------------------------------------------------------

  /** Bytes already read, in front of the outcome of the rest. */
  function InFront<E>(done: seq<U8>, rest: Result<seq<U8>, E>): Result<seq<U8>, E> {
    match rest
    case Failure(error) => Failure(error)
    case Success(bytes) => Success(done + bytes)
  }

  lemma InFrontNone<E>(rest: Result<seq<U8>, E>)
    ensures InFront([], rest) == rest
  {
    if rest.Success? {
      assert [] + rest.value == rest.value;
    }
  }

  lemma InFrontNext<E>(done: seq<U8>, byte: U8, rest: Result<seq<U8>, E>)
    ensures InFront(done, InFront([byte], rest)) == InFront(done + [byte], rest)
  {
    if rest.Success? {
      assert done + ([byte] + rest.value) == (done + [byte]) + rest.value;
    }
  }
}
