/** The byte buffers that hold Mode S messages, seen as sequences of bits. */
module MessageBits {
  import opened Polynomial

  // Bit i of a message, counted from 0 at the top of the first byte.
  function BitAt(msg: seq<bv8>, i: nat): bool
    requires i < 8 * |msg|
  {
    TopBit(msg[i / 8], i % 8)
  }

  // Bit j of a byte, counted from its most significant bit.
  predicate TopBit(b: bv8, j: nat)
    requires j < 8
  {
    b & Mask(j) != 0
  }

  function Mask(j: nat): bv8
    requires j < 8
  {
    1 << (7 - j)
  }

  function XorByte(a: bv8, b: bv8): bv8 {
    a ^ b
  }

  function BitsOf(msg: seq<bv8>): seq<bool> {
    seq(8 * |msg|, i requires 0 <= i < 8 * |msg| => BitAt(msg, i))
  }

  function ByteBits(b: bv8): seq<bool> {
    seq(8, j requires 0 <= j < 8 => TopBit(b, j))
  }

  // The message with every bit at a position in `errors` inverted.
  function Flip(bits: seq<bool>, errors: set<nat>): seq<bool> {
    seq(|bits|, i requires 0 <= i < |bits| => bits[i] != (i in errors))
  }

  function Syndrome(msg: seq<bv8>): bv32 {
    Remainder(BitsOf(msg))
  }

  // The syndrome that an error pattern leaves in an n-bit message.
  function PatternSyndrome(n: nat, errors: set<nat>): bv32 {
    Remainder(Flip(Zeros(n), errors))
  }

  lemma BitsOfAppend(msg: seq<bv8>, b: bv8)
    ensures BitsOf(msg + [b]) == BitsOf(msg) + ByteBits(b)
  {
    hide TopBit;
    var l, r := BitsOf(msg + [b]), BitsOf(msg) + ByteBits(b);
    assert |l| == |r|;
    forall i | 0 <= i < |l|
      ensures l[i] == r[i]
    {
      if i < 8 * |msg| {
        assert (msg + [b])[i / 8] == msg[i / 8];
      } else {
        assert i / 8 == |msg|;
      }
    }
  }

  lemma BitsOfConcat(a: seq<bv8>, b: seq<bv8>)
    ensures BitsOf(a + b) == BitsOf(a) + BitsOf(b)
  {
    hide TopBit;
    var l, r := BitsOf(a + b), BitsOf(a) + BitsOf(b);
    assert |l| == |r|;
    forall i | 0 <= i < |l|
      ensures l[i] == r[i]
    {
      if i < 8 * |a| {
        assert (a + b)[i / 8] == a[i / 8];
      } else {
        assert i / 8 - |a| == (i - 8 * |a|) / 8;
        assert i % 8 == (i - 8 * |a|) % 8;
      }
    }
  }

  /** Errors add their own syndrome, whatever message they fall on. */
  lemma FlipAddsPatternSyndrome(bits: seq<bool>, errors: set<nat>)
    ensures Remainder(Flip(bits, errors)) == Plus(Remainder(bits), PatternSyndrome(|bits|, errors))
  {
    hide Plus, TimesX, BitValue;
    var pattern := Flip(Zeros(|bits|), errors);
    assert Flip(bits, errors) == Xor(bits, pattern);
    RemainderLinear(bits, pattern);
  }

  lemma FlipTwice(bits: seq<bool>, errors: set<nat>)
    ensures Flip(Flip(bits, errors), errors) == bits
  {
  }

  lemma PatternSyndromeOfNone(n: nat)
    ensures PatternSyndrome(n, {}) == 0
  {
    assert Flip(Zeros(n), {}) == Zeros(n);
    RemainderZeros(n);
  }

  /** One more error adds the monomial of its position. */
  lemma PatternSyndromeInsert(n: nat, errors: set<nat>, i: nat)
    requires i < n && i !in errors
    ensures PatternSyndrome(n, errors + {i}) == Plus(PatternSyndrome(n, errors), XToThe(n - 1 - i))
  {
    hide Plus, TimesX, BitValue;
    var a, b := Flip(Zeros(n), errors), OneBit(n, i);
    assert Flip(Zeros(n), errors + {i}) == Xor(a, b);
    RemainderLinear(a, b);
    RemainderOneBit(n, i);
  }

  /** The syndrome of a pattern in a short message is that of the same pattern at
      the end of a long one. */
  lemma PatternSyndromeShift(n: nat, pad: nat, errors: set<nat>)
    ensures PatternSyndrome(n, errors) == PatternSyndrome(pad + n, set i | i in errors :: i + pad)
  {
    hide Plus, TimesX, BitValue;
    var shifted := set i | i in errors :: i + pad;
    var long := Flip(Zeros(pad + n), shifted);
    var short := Zeros(pad) + Flip(Zeros(n), errors);
    assert |long| == |short|;
    forall i | 0 <= i < pad + n
      ensures long[i] == short[i]
    {
      if i >= pad && i - pad in errors {
        assert (i - pad) + pad in shifted;
      }
    }
    assert long == short;
    RemainderLeadingZeros(pad, Flip(Zeros(n), errors));
  }

  // ------------------------------------------------------------- setting bits

  lemma TopBitOfZero(j: nat)
    requires j < 8
    ensures !TopBit(0, j)
  {
  }

  lemma TopBitOfMask(j: nat, k: nat)
    requires j < 8 && k < 8
    ensures TopBit(Mask(j), k) <==> j == k
  {
    MaskValue(j);
    MaskValue(k);
  }

  lemma MaskValue(k: nat)
    requires k < 8
    ensures Mask(k) == match k case 0 => 0x80 case 1 => 0x40 case 2 => 0x20 case 3 => 0x10
                               case 4 => 0x08 case 5 => 0x04 case 6 => 0x02 case _ => 0x01
  {
  }

  lemma TopBitOfXor(a: bv8, b: bv8, k: nat)
    requires k < 8
    ensures TopBit(XorByte(a, b), k) <==> TopBit(a, k) != TopBit(b, k)
  {
    hide Mask;
    MaskValue(k);
    XorUnderMask(a, b, Mask(k));
  }

  lemma XorUnderMask(a: bv8, b: bv8, m: bv8)
    requires m == 0x80 || m == 0x40 || m == 0x20 || m == 0x10 || m == 0x08 || m == 0x04 || m == 0x02 || m == 0x01
    ensures (a ^ b) & m != 0 <==> (a & m != 0) != (b & m != 0)
  {
  }

  lemma ZeroByteXor(b: bv8)
    ensures XorByte(0, b) == b && XorByte(b, b) == 0
  {
  }

  // The message with bit i inverted, as the code does it on bytes.
  function FlipBit(msg: seq<bv8>, i: nat): (r: seq<bv8>)
    requires i < 8 * |msg|
    ensures |r| == |msg|
  {
    msg[i / 8 := XorByte(msg[i / 8], Mask(i % 8))]
  }

  /** Inverting one bit of one byte inverts one bit of the message. */
  lemma FlipBitFlips(msg: seq<bv8>, i: nat)
    requires i < 8 * |msg|
    ensures BitsOf(FlipBit(msg, i)) == Flip(BitsOf(msg), {i})
  {
    hide TopBit, Mask, XorByte;
    var l, r := BitsOf(FlipBit(msg, i)), Flip(BitsOf(msg), {i});
    forall k | 0 <= k < |l|
      ensures l[k] == r[k]
    {
      if k / 8 == i / 8 {
        TopBitOfXor(msg[i / 8], Mask(i % 8), k % 8);
        TopBitOfMask(i % 8, k % 8);
      }
    }
  }

  // The first k of the listed positions are bits of the message.
  predicate Fits(msg: seq<bv8>, positions: seq<int>, k: nat) {
    k <= |positions| && forall j :: 0 <= j < k ==> 0 <= positions[j] < 8 * |msg|
  }

  // The message with the first k of the listed bits inverted one after the other.
  function FlipBits(msg: seq<bv8>, positions: seq<int>, k: nat): (r: seq<bv8>)
    requires Fits(msg, positions, k)
    ensures |r| == |msg|
  {
    if k == 0 then msg else FlipBit(FlipBits(msg, positions, k - 1), positions[k - 1])
  }

  lemma {:induction false} FlipBitsFlips(msg: seq<bv8>, positions: seq<int>, k: nat)
    requires Fits(msg, positions, k)
    requires forall i, j :: 0 <= i < j < k ==> positions[i] != positions[j]
    ensures BitsOf(FlipBits(msg, positions, k)) == Flip(BitsOf(msg), set j | 0 <= j < k :: positions[j])
  {
    hide FlipBit, BitAt;
    var before := BitsOf(msg);
    if k == 0 {
      assert Flip(before, {}) == before;
    } else {
      FlipBitsFlips(msg, positions, k - 1);
      FlipBitFlips(FlipBits(msg, positions, k - 1), positions[k - 1]);
      FlipOneMore(before, set j | 0 <= j < k - 1 :: positions[j], positions[k - 1]);
      assert (set j | 0 <= j < k :: positions[j]) == (set j | 0 <= j < k - 1 :: positions[j]) + {positions[k - 1]};
    }
  }

  lemma FlipOneMore(bits: seq<bool>, errors: set<nat>, i: nat)
    requires i !in errors
    ensures Flip(Flip(bits, errors), {i}) == Flip(bits, errors + {i})
  {
  }

  lemma BitsOfZeros(n: nat)
    ensures BitsOf(seq(n, _ => 0)) == Zeros(8 * n)
  {
    hide TopBit;
    var bits := BitsOf(seq(n, _ => 0));
    forall k | 0 <= k < 8 * n
      ensures !bits[k]
    {
      TopBitOfZero(k % 8);
    }
  }

  lemma SetOneBit(n: nat, i: nat)
    requires i < 8 * n
    ensures BitsOf(seq(n, _ => 0)[i / 8 := Mask(i % 8)]) == OneBit(8 * n, i)
  {
    hide TopBit, Mask, XorByte;
    var zero: seq<bv8> := seq(n, _ => 0);
    ZeroByteXor(Mask(i % 8));
    FlipBitFlips(zero, i);
    BitsOfZeros(n);
    assert Flip(Zeros(8 * n), {i}) == OneBit(8 * n, i);
  }

  // ---------------------------------------------------------- bits determine bytes

  lemma SameTopBits(a: bv8, b: bv8)
    requires ByteBits(a) == ByteBits(b)
    ensures a == b
  {
    hide TopBit;
    assert forall j :: 0 <= j < 8 ==> TopBit(a, j) == ByteBits(a)[j];
    assert forall j :: 0 <= j < 8 ==> TopBit(b, j) == ByteBits(b)[j];
    SameEight(a, b);
  }

  lemma SameEight(a: bv8, b: bv8)
    requires TopBit(a, 0) == TopBit(b, 0) && TopBit(a, 1) == TopBit(b, 1) && TopBit(a, 2) == TopBit(b, 2)
    requires TopBit(a, 3) == TopBit(b, 3) && TopBit(a, 4) == TopBit(b, 4) && TopBit(a, 5) == TopBit(b, 5)
    requires TopBit(a, 6) == TopBit(b, 6) && TopBit(a, 7) == TopBit(b, 7)
    ensures a == b
  {
    hide Mask;
    MaskValue(0);
    MaskValue(1);
    MaskValue(2);
    MaskValue(3);
    MaskValue(4);
    MaskValue(5);
    MaskValue(6);
    MaskValue(7);
    SameMasked(a, b);
  }

  lemma SameMasked(a: bv8, b: bv8)
    requires (a & 0x80 != 0) == (b & 0x80 != 0) && (a & 0x40 != 0) == (b & 0x40 != 0)
    requires (a & 0x20 != 0) == (b & 0x20 != 0) && (a & 0x10 != 0) == (b & 0x10 != 0)
    requires (a & 0x08 != 0) == (b & 0x08 != 0) && (a & 0x04 != 0) == (b & 0x04 != 0)
    requires (a & 0x02 != 0) == (b & 0x02 != 0) && (a & 0x01 != 0) == (b & 0x01 != 0)
    ensures a == b
  {
  }

  /** The bits of a message determine it. */
  lemma SameBits(a: seq<bv8>, b: seq<bv8>)
    requires BitsOf(a) == BitsOf(b)
    ensures a == b
  {
    hide TopBit;
    assert |BitsOf(a)| == 8 * |a| && |BitsOf(b)| == 8 * |b|;
    forall i | 0 <= i < |a|
      ensures a[i] == b[i]
    {
      forall j | 0 <= j < 8
        ensures ByteBits(a[i])[j] == ByteBits(b[i])[j]
      {
        assert BitsOf(a)[8 * i + j] == BitsOf(b)[8 * i + j];
      }
      SameTopBits(a[i], b[i]);
    }
  }
}
