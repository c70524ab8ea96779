/** The generator is divisible by x + 1, so the parity of a syndrome is the parity of
    the number of errors behind it. */
module SyndromeParity {
  import opened Polynomial
  import opened MessageBits
  import opened Checksum

  // Selects the coefficient of x^j.
  function CoefficientMask(j: nat): bv32
    requires j < 24
  {
    match j
    case 0 => 0x1 case 1 => 0x2 case 2 => 0x4 case 3 => 0x8
    case 4 => 0x10 case 5 => 0x20 case 6 => 0x40 case 7 => 0x80
    case 8 => 0x100 case 9 => 0x200 case 10 => 0x400 case 11 => 0x800
    case 12 => 0x1000 case 13 => 0x2000 case 14 => 0x4000 case 15 => 0x8000
    case 16 => 0x10000 case 17 => 0x20000 case 18 => 0x40000 case 19 => 0x80000
    case 20 => 0x100000 case 21 => 0x200000 case 22 => 0x400000 case _ => 0x800000
  }

  predicate Coefficient(r: bv32, j: nat)
    requires j < 24
  {
    Bit(r, CoefficientMask(j))
  }

  // Whether an odd number of the lowest k coefficients is set.
  predicate OddBelow(r: bv32, k: nat)
    requires k <= 24
  {
    k > 0 && OddBelow(r, k - 1) != Coefficient(r, k - 1)
  }

  predicate Odd(r: bv32) {
    OddBelow(r, 24)
  }

  lemma SumAtMask(a: bv32, b: bv32, m: bv32)
    requires m & (m - 1) == 0
    ensures (a ^ b) & m != 0 <==> (a & m != 0) != (b & m != 0)
  {
  }

  lemma MaskIsPower(j: nat)
    requires j < 24
    ensures CoefficientMask(j) & (CoefficientMask(j) - 1) == 0
  {
  }

  lemma CoefficientOfSum(a: bv32, b: bv32, j: nat)
    requires j < 24
    ensures Coefficient(Plus(a, b), j) <==> Coefficient(a, j) != Coefficient(b, j)
  {
    hide CoefficientMask;
    MaskIsPower(j);
    SumAtMask(a, b, CoefficientMask(j));
  }

  lemma ShiftAtMask(r: bv32, m: bv32)
    requires m & 0xff800000 == 0
    ensures ((r << 1) & 0xffffff) & (m << 1) != 0 <==> r & m != 0
  {
  }

  predicate Below23(m: bv32) {
    m & 0xff800000 == 0
  }

  lemma MaskDoubles(j: nat)
    requires 1 <= j < 24
    ensures CoefficientMask(j) == Double(CoefficientMask(j - 1)) && Below23(CoefficientMask(j - 1))
  {
  }

  predicate Bit(r: bv32, m: bv32) {
    r & m != 0
  }

  lemma BitOfShift(r: bv32, m: bv32)
    requires Below23(m)
    ensures Bit(ShiftLeft(r), Double(m)) <==> Bit(r, m)
  {
    ShiftAtMask(r, m);
  }

  lemma BitOfShiftLowest(r: bv32)
    ensures !Bit(ShiftLeft(r), 1)
  {
  }

  lemma CoefficientOfShift(r: bv32, j: nat)
    requires j < 24
    ensures Coefficient(ShiftLeft(r), j) <==> j > 0 && Coefficient(r, j - 1)
  {
    hide CoefficientMask, ShiftLeft, Bit, Below23, Double;
    if j == 0 {
      LowestMask();
      BitOfShiftLowest(r);
    } else {
      MaskDoubles(j);
      BitOfShift(r, CoefficientMask(j - 1));
    }
  }

  lemma LowestMask()
    ensures CoefficientMask(0) == 1
  {
  }

  // ------------------------------------------------------ parity of a register

  lemma {:induction false} OddOfSum(a: bv32, b: bv32, k: nat)
    requires k <= 24
    ensures OddBelow(Plus(a, b), k) <==> OddBelow(a, k) != OddBelow(b, k)
  {
    hide Coefficient, Plus;
    if k > 0 {
      OddOfSum(a, b, k - 1);
      CoefficientOfSum(a, b, k - 1);
    }
  }

  lemma {:induction false} OddOfShift(r: bv32, k: nat)
    requires 1 <= k <= 24
    ensures OddBelow(ShiftLeft(r), k) <==> OddBelow(r, k - 1)
  {
    hide Coefficient, ShiftLeft;
    CoefficientOfShift(r, k - 1);
    if k > 1 {
      OddOfShift(r, k - 1);
    }
  }

  lemma LeadingIsCoefficient(r: bv32)
    ensures Leading(r) <==> Coefficient(r, 23)
  {
  }

  lemma {:induction false} OddOfLowBits(k: nat)
    requires k <= 24
    ensures !OddBelow(0, k) && (k > 0 ==> OddBelow(1, k))
  {
    if k > 0 {
      OddOfLowBits(k - 1);
    }
  }

  lemma GeneratorIsOdd()
    ensures OddBelow(GENERATOR, 24)
  {
    assert OddBelow(GENERATOR, 4) <==> false;
    assert OddBelow(GENERATOR, 8) <==> false;
    assert OddBelow(GENERATOR, 12) <==> true;
    assert OddBelow(GENERATOR, 16) <==> true;
    assert OddBelow(GENERATOR, 20) <==> true;
  }

  /** Multiplying by x modulo the generator keeps the parity. */
  lemma OddOfTimesX(r: bv32)
    ensures Odd(TimesX(r)) <==> Odd(r)
  {
    hide Coefficient, ShiftLeft, Plus, Leading;
    OddOfShift(r, 24);
    LeadingIsCoefficient(r);
    OddOfSum(ShiftLeft(r), GENERATOR, 24);
    GeneratorIsOdd();
  }

  lemma {:induction false} OddOfMonomial(k: nat)
    ensures Odd(XToThe(k))
  {
    hide TimesX, Coefficient;
    if k == 0 {
      OddOfLowBits(24);
    } else {
      OddOfMonomial(k - 1);
      OddOfTimesX(XToThe(k - 1));
    }
  }

  /** An even number of errors never has the syndrome of an odd number of errors. */
  lemma {:induction false} OddOfPattern(n: nat, errors: set<nat>)
    requires forall i :: i in errors ==> i < n
    ensures Odd(PatternSyndrome(n, errors)) <==> |errors| % 2 == 1
  {
    hide TimesX, Plus, Coefficient, PatternSyndrome;
    if errors == {} {
      PatternSyndromeOfNone(n);
      OddOfLowBits(24);
    } else {
      var i :| i in errors;
      var rest := errors - {i};
      OddOfPattern(n, rest);
      assert rest + {i} == errors;
      PatternSyndromeInsert(n, rest, i);
      OddOfMonomial(n - 1 - i);
      OddOfSum(PatternSyndrome(n, rest), XToThe(n - 1 - i), 24);
    }
  }
}
