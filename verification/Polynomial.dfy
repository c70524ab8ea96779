/** Arithmetic in GF(2)[x] modulo the Mode S generator, which section 3.1.2.3.3 of
    ICAO Annex 10 Volume IV gives as x^24 + 0xfff409.

    A message is a sequence of bits, most significant first. `Remainder` divides it
    by the generator one bit at a time. It is the reference definition that the
    byte-table checksum, the syndrome tables and the bridge's own parity table are
    all proved against. */
module Polynomial {

  // The generator without its leading x^24 term.
  const GENERATOR: bv32 := 0xfff409

  predicate IsResidue(r: bv32) {
    r & 0xff000000 == 0
  }

  function Plus(a: bv32, b: bv32): bv32 {
    a ^ b
  }

  // The coefficient of x^23.
  predicate Leading(r: bv32) {
    r & 0x800000 != 0
  }

  // x * r without its leading term.
  function ShiftLeft(r: bv32): bv32 {
    (r << 1) & 0xffffff
  }

  // x * r, reduced.
  function TimesX(r: bv32): bv32 {
    if Leading(r) then Plus(ShiftLeft(r), GENERATOR) else ShiftLeft(r)
  }

  // x^k * r, reduced.
  function TimesXToThe(k: nat, r: bv32): bv32 {
    if k == 0 then r else TimesX(TimesXToThe(k - 1, r))
  }

  function XToThe(k: nat): bv32 {
    TimesXToThe(k, 1)
  }

  function BitValue(b: bool): bv32 {
    if b then 1 else 0
  }

  function Remainder(bits: seq<bool>): bv32 {
    if bits == [] then 0
    else Plus(TimesX(Remainder(bits[..|bits| - 1])), BitValue(bits[|bits| - 1]))
  }

  function Xor(a: seq<bool>, b: seq<bool>): seq<bool>
    requires |a| == |b|
  {
    seq(|a|, i requires 0 <= i < |a| => a[i] != b[i])
  }

  function Zeros(n: nat): seq<bool> {
    seq(n, _ => false)
  }

  // The message of n bits whose only set bit is bit i.
  function OneBit(n: nat, i: nat): seq<bool> {
    seq(n, j => j == i)
  }

  // ------------------------------------------------ single steps, on bit vectors

  lemma PlusAssociative(a: bv32, b: bv32, c: bv32)
    ensures Plus(Plus(a, b), c) == Plus(a, Plus(b, c))
  {
    XorAssociative(a, b, c);
  }

  lemma PlusCommutative(a: bv32, b: bv32)
    ensures Plus(a, b) == Plus(b, a)
  {
    XorCommutative(a, b);
  }

  lemma XorAssociative(a: bv32, b: bv32, c: bv32)
    ensures (a ^ b) ^ c == a ^ (b ^ c)
  {
  }

  lemma XorCommutative(a: bv32, b: bv32)
    ensures a ^ b == b ^ a
  {
  }

  lemma PlusZero(a: bv32)
    ensures Plus(a, 0) == a && Plus(0, a) == a && Plus(a, a) == 0
  {
  }

  lemma PlusRearrange(p: bv32, q: bv32, u: bv32, v: bv32)
    ensures Plus(Plus(p, q), Plus(u, v)) == Plus(Plus(p, u), Plus(q, v))
  {
    hide Plus;
    PlusAssociative(p, q, Plus(u, v));
    PlusAssociative(q, u, v);
    PlusCommutative(q, u);
    PlusAssociative(u, q, v);
    PlusAssociative(p, u, Plus(q, v));
  }

  lemma PlusCancel(a: bv32, b: bv32, c: bv32)
    requires Plus(a, c) == Plus(b, c)
    ensures a == b
  {
    hide Plus;
    PlusAssociative(a, c, c);
    PlusAssociative(b, c, c);
    PlusZero(a);
    PlusZero(b);
    PlusZero(c);
  }

  lemma PlusResidue(a: bv32, b: bv32)
    requires IsResidue(a) && IsResidue(b)
    ensures IsResidue(Plus(a, b))
  {
  }

  lemma ShiftLeftResidue(r: bv32)
    ensures IsResidue(ShiftLeft(r)) && IsResidue(GENERATOR)
  {
  }

  lemma ShiftLeftLinear(a: bv32, b: bv32)
    ensures ShiftLeft(Plus(a, b)) == Plus(ShiftLeft(a), ShiftLeft(b))
  {
  }

  lemma LeadingOfSum(a: bv32, b: bv32)
    ensures Leading(Plus(a, b)) == (Leading(a) != Leading(b))
  {
  }

  lemma TimesXResidue(r: bv32)
    ensures IsResidue(TimesX(r))
  {
    hide IsResidue, ShiftLeft, Plus, Leading;
    ShiftLeftResidue(r);
    PlusResidue(ShiftLeft(r), GENERATOR);
  }

  lemma TimesXLinear(a: bv32, b: bv32)
    ensures TimesX(Plus(a, b)) == Plus(TimesX(a), TimesX(b))
  {
    hide ShiftLeft, Plus, Leading;
    var s, t := ShiftLeft(a), ShiftLeft(b);
    LeadingOfSum(a, b);
    ShiftLeftLinear(a, b);
    PlusRearrange(s, GENERATOR, t, if Leading(b) then GENERATOR else 0);
    PlusRearrange(s, 0, t, if Leading(b) then GENERATOR else 0);
    PlusZero(s);
    PlusZero(t);
    PlusZero(GENERATOR);
    PlusZero(Plus(s, t));
  }

  lemma TimesXOfZero()
    ensures TimesX(0) == 0
  {
  }

  // The generator has a constant term, so nothing but zero is shifted to zero.
  lemma TimesXKernel(r: bv32)
    requires IsResidue(r) && TimesX(r) == 0
    ensures r == 0
  {
  }

  lemma BitValueOfXor(a: bool, b: bool)
    ensures BitValue(a != b) == Plus(BitValue(a), BitValue(b))
  {
  }

  lemma BitValueResidue(b: bool)
    ensures IsResidue(BitValue(b))
  {
  }

  lemma TimesXInjective(a: bv32, b: bv32)
    requires IsResidue(a) && IsResidue(b) && TimesX(a) == TimesX(b)
    ensures a == b
  {
    hide Plus, TimesX, IsResidue;
    TimesXLinear(a, b);
    PlusZero(TimesX(a));
    PlusResidue(a, b);
    TimesXKernel(Plus(a, b));
    PlusZero(b);
    PlusCancel(a, b, b);
  }

  // ---------------------------------------------------------------- linearity

  lemma {:induction false} TimesXToTheLinear(k: nat, a: bv32, b: bv32)
    ensures TimesXToThe(k, Plus(a, b)) == Plus(TimesXToThe(k, a), TimesXToThe(k, b))
  {
    hide Plus, TimesX;
    if k > 0 {
      TimesXToTheLinear(k - 1, a, b);
      TimesXLinear(TimesXToThe(k - 1, a), TimesXToThe(k - 1, b));
    }
  }

  lemma {:induction false} TimesXToTheAdd(j: nat, k: nat, r: bv32)
    ensures TimesXToThe(j + k, r) == TimesXToThe(j, TimesXToThe(k, r))
  {
    hide TimesX;
    if j > 0 {
      TimesXToTheAdd(j - 1, k, r);
    }
  }

  lemma {:induction false} TimesXToTheZero(k: nat)
    ensures TimesXToThe(k, 0) == 0
  {
    hide TimesX;
    if k > 0 {
      TimesXToTheZero(k - 1);
      TimesXOfZero();
    }
  }

  lemma {:induction false} TimesXToTheResidue(k: nat, r: bv32)
    requires k > 0 || IsResidue(r)
    ensures IsResidue(TimesXToThe(k, r))
  {
    hide TimesX, IsResidue;
    if k > 0 {
      TimesXResidue(TimesXToThe(k - 1, r));
    }
  }

  lemma RemainderResidue(bits: seq<bool>)
    ensures IsResidue(Remainder(bits))
  {
    hide TimesX, IsResidue, Plus, BitValue;
    if bits == [] {
      BitValueResidue(false);
      assert BitValue(false) == 0 by { BitValueOfFalse(); }
    } else {
      TimesXResidue(Remainder(bits[..|bits| - 1]));
      BitValueResidue(bits[|bits| - 1]);
      PlusResidue(TimesX(Remainder(bits[..|bits| - 1])), BitValue(bits[|bits| - 1]));
    }
  }

  lemma BitValueOfFalse()
    ensures BitValue(false) == 0
  {
  }

  lemma RemainderStep(bits: seq<bool>, last: bool)
    ensures Remainder(bits + [last]) == Plus(TimesX(Remainder(bits)), BitValue(last))
  {
    hide TimesX, Plus, BitValue;
    assert (bits + [last])[..|bits|] == bits;
  }

  lemma XorStep(a: seq<bool>, b: seq<bool>, x: bool, y: bool)
    requires |a| == |b|
    ensures Xor(a + [x], b + [y]) == Xor(a, b) + [x != y]
  {
  }

  /** The remainder of a sum is the sum of the remainders. */
  lemma {:induction false} RemainderLinear(a: seq<bool>, b: seq<bool>)
    requires |a| == |b|
    ensures Remainder(Xor(a, b)) == Plus(Remainder(a), Remainder(b))
  {
    var n := |a|;
    if n == 0 {
      PlusZero(0);
    } else {
      hide *;
      var a', x, b', y := a[..n - 1], a[n - 1], b[..n - 1], b[n - 1];
      assert a == a' + [x] && b == b' + [y];
      RemainderLinear(a', b');
      XorStep(a', b', x, y);
      RemainderStep(a', x);
      RemainderStep(b', y);
      RemainderStep(Xor(a', b'), x != y);
      TimesXLinear(Remainder(a'), Remainder(b'));
      BitValueOfXor(x, y);
      PlusRearrange(TimesX(Remainder(a')), TimesX(Remainder(b')), BitValue(x), BitValue(y));
    }
  }

  lemma {:induction false} RemainderConcat(a: seq<bool>, b: seq<bool>)
    ensures var ra, rb := Remainder(a), Remainder(b); Remainder(a + b) == Plus(TimesXToThe(|b|, ra), rb)
  {
    hide TimesX, Plus, BitValue;
    var n := |b|;
    if n == 0 {
      assert a + b == a;
      PlusZero(Remainder(a));
    } else {
      var b' := b[..n - 1];
      RemainderConcat(a, b');
      assert (a + b)[..|a| + n - 1] == a + b';
      TimesXLinear(TimesXToThe(n - 1, Remainder(a)), Remainder(b'));
      PlusAssociative(TimesX(TimesXToThe(n - 1, Remainder(a))), TimesX(Remainder(b')), BitValue(b[n - 1]));
    }
  }

  lemma {:induction false} RemainderZeros(n: nat)
    ensures Remainder(Zeros(n)) == 0
  {
    hide TimesX, Plus, BitValue;
    if n > 0 {
      RemainderZeros(n - 1);
      assert Zeros(n)[..n - 1] == Zeros(n - 1);
      TimesXOfZero();
      BitValueOfFalse();
      PlusZero(0);
    }
  }

  /** Leading zero bits do not change the remainder, so a short message has the
      remainder of the long message that ends with it. */
  lemma RemainderLeadingZeros(n: nat, bits: seq<bool>)
    ensures Remainder(Zeros(n) + bits) == Remainder(bits)
  {
    hide TimesX, Plus, BitValue;
    RemainderConcat(Zeros(n), bits);
    RemainderZeros(n);
    TimesXToTheZero(|bits|);
    PlusZero(Remainder(bits));
  }

  /** A message of n bits with only bit i set is the monomial x^(n-1-i). */
  lemma {:induction false} RemainderOneBit(n: nat, i: nat)
    requires i < n
    ensures Remainder(OneBit(n, i)) == XToThe(n - 1 - i)
  {
    hide TimesX, Plus, BitValue;
    assert OneBit(n, i)[..n - 1] == if i == n - 1 then Zeros(n - 1) else OneBit(n - 1, i);
    if i == n - 1 {
      RemainderZeros(n - 1);
      TimesXOfZero();
      BitValueOfTrue();
      PlusZero(1);
    } else {
      RemainderOneBit(n - 1, i);
      BitValueOfFalse();
      PlusZero(TimesX(Remainder(OneBit(n - 1, i))));
    }
  }

  lemma BitValueOfTrue()
    ensures BitValue(true) == 1
  {
  }
}
