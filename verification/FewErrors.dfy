/** Up to four errors are always noticed with one-bit correction: no four powers of x below
    x^112 cancel. The powers are listed, and every sum of three is compared with the list. */
module FewErrors {
  import opened Polynomial
  import opened MessageBits
  import opened Checksum
  import opened ErrorTable
  import opened BridgeParity
  import opened SyndromeParity
  import opened Correction

  // ------------------------------------------------------------------- the powers of x

  // The entry that the lowest three bits of an index name.
  function Pick(i: bv7, e0: bv32, e1: bv32, e2: bv32, e3: bv32, e4: bv32, e5: bv32, e6: bv32, e7: bv32): bv32 {
    if i & 4 != 0 then
      if i & 2 != 0 then (if i & 1 != 0 then e7 else e6) else (if i & 1 != 0 then e5 else e4)
    else
      if i & 2 != 0 then (if i & 1 != 0 then e3 else e2) else (if i & 1 != 0 then e1 else e0)
  }

  // x^i for the indices below 112.
  function Power(i: bv7): bv32 {
    if i & 64 != 0 then
      if i & 32 != 0 then
        if i & 8 != 0 then
          Pick(i, 0x587178, 0xb0e2f0, 0x9e31e9, 0xc397db, 0x78dbbf, 0xf1b77e, 0x1c9af5, 0x3935ea)
        else
          Pick(i, 0xd05c14, 0x5f4c21, 0xbe9842, 0x82c48d, 0xfa7d13, 0x0b0e2f, 0x161c5e, 0x2c38bc)
      else
        if i & 16 != 0 then
          if i & 8 != 0 then
            Pick(i, 0xd8d449, 0x4e5c9b, 0x9cb936, 0xc68665, 0x72f8c3, 0xe5f186, 0x341705, 0x682e0a)
          else
            Pick(i, 0x7eda22, 0xfdb444, 0x049c81, 0x093902, 0x127204, 0x24e408, 0x49c810, 0x939020)
        else
          if i & 8 != 0 then
            Pick(i, 0xdc7af7, 0x4701e7, 0x8e03ce, 0xe3f395, 0x381323, 0x702646, 0xe04c8c, 0x3f6d11)
          else
            Pick(i, 0xf52612, 0x15b82d, 0x2b705a, 0x56e0b4, 0xadc168, 0xa476d9, 0xb719bb, 0x91c77f)
    else
      if i & 32 != 0 then
        if i & 16 != 0 then
          if i & 8 != 0 then
            Pick(i, 0x030ace, 0x06159c, 0x0c2b38, 0x185670, 0x30ace0, 0x6159c0, 0xc2b380, 0x7a9309)
          else
            Pick(i, 0x2bfd53, 0x57faa6, 0xaff54c, 0xa01e91, 0xbfc92b, 0x80665f, 0xff38b7, 0x018567)
        else
          if i & 8 != 0 then
            Pick(i, 0x0dd441, 0x1ba882, 0x375104, 0x6ea208, 0xdd4410, 0x457c29, 0x8af852, 0xea04ad)
          else
            Pick(i, 0x0e0d80, 0x1c1b00, 0x383600, 0x706c00, 0xe0d800, 0x3e4409, 0x7c8812, 0xf91024)
      else
        if i & 16 != 0 then
          if i & 8 != 0 then
            Pick(i, 0xfff409, 0x001c1b, 0x003836, 0x00706c, 0x00e0d8, 0x01c1b0, 0x038360, 0x0706c0)
          else
            Pick(i, 0x010000, 0x020000, 0x040000, 0x080000, 0x100000, 0x200000, 0x400000, 0x800000)
        else
          if i & 8 != 0 then
            Pick(i, 0x000100, 0x000200, 0x000400, 0x000800, 0x001000, 0x002000, 0x004000, 0x008000)
          else
            Pick(i, 0x000001, 0x000002, 0x000004, 0x000008, 0x000010, 0x000020, 0x000040, 0x000080)
  }

  predicate IsPower(r: bv32) {
    || r == 0x000001 || r == 0x000002 || r == 0x000004 || r == 0x000008 || r == 0x000010 || r == 0x000020
    || r == 0x000040 || r == 0x000080 || r == 0x000100 || r == 0x000200 || r == 0x000400 || r == 0x000800
    || r == 0x001000 || r == 0x002000 || r == 0x004000 || r == 0x008000 || r == 0x010000 || r == 0x020000
    || r == 0x040000 || r == 0x080000 || r == 0x100000 || r == 0x200000 || r == 0x400000 || r == 0x800000
    || r == 0xfff409 || r == 0x001c1b || r == 0x003836 || r == 0x00706c || r == 0x00e0d8 || r == 0x01c1b0
    || r == 0x038360 || r == 0x0706c0 || r == 0x0e0d80 || r == 0x1c1b00 || r == 0x383600 || r == 0x706c00
    || r == 0xe0d800 || r == 0x3e4409 || r == 0x7c8812 || r == 0xf91024 || r == 0x0dd441 || r == 0x1ba882
    || r == 0x375104 || r == 0x6ea208 || r == 0xdd4410 || r == 0x457c29 || r == 0x8af852 || r == 0xea04ad
    || r == 0x2bfd53 || r == 0x57faa6 || r == 0xaff54c || r == 0xa01e91 || r == 0xbfc92b || r == 0x80665f
    || r == 0xff38b7 || r == 0x018567 || r == 0x030ace || r == 0x06159c || r == 0x0c2b38 || r == 0x185670
    || r == 0x30ace0 || r == 0x6159c0 || r == 0xc2b380 || r == 0x7a9309 || r == 0xf52612 || r == 0x15b82d
    || r == 0x2b705a || r == 0x56e0b4 || r == 0xadc168 || r == 0xa476d9 || r == 0xb719bb || r == 0x91c77f
    || r == 0xdc7af7 || r == 0x4701e7 || r == 0x8e03ce || r == 0xe3f395 || r == 0x381323 || r == 0x702646
    || r == 0xe04c8c || r == 0x3f6d11 || r == 0x7eda22 || r == 0xfdb444 || r == 0x049c81 || r == 0x093902
    || r == 0x127204 || r == 0x24e408 || r == 0x49c810 || r == 0x939020 || r == 0xd8d449 || r == 0x4e5c9b
    || r == 0x9cb936 || r == 0xc68665 || r == 0x72f8c3 || r == 0xe5f186 || r == 0x341705 || r == 0x682e0a
    || r == 0xd05c14 || r == 0x5f4c21 || r == 0xbe9842 || r == 0x82c48d || r == 0xfa7d13 || r == 0x0b0e2f
    || r == 0x161c5e || r == 0x2c38bc || r == 0x587178 || r == 0xb0e2f0 || r == 0x9e31e9 || r == 0xc397db
    || r == 0x78dbbf || r == 0xf1b77e || r == 0x1c9af5 || r == 0x3935ea
  }

  lemma PowersAreListed(i: bv7)
    requires i < 112
    ensures IsPower(Power(i))
  {
  }

  lemma NextInFirstQuarter(i: bv7)
    requires i >> 5 == 0 && i < 111
    ensures Power(i + 1) == TimesX(Power(i))
  {
  }

  lemma NextInSecondQuarter(i: bv7)
    requires i >> 5 == 1 && i < 111
    ensures Power(i + 1) == TimesX(Power(i))
  {
  }

  lemma NextInThirdQuarter(i: bv7)
    requires i >> 5 == 2 && i < 111
    ensures Power(i + 1) == TimesX(Power(i))
  {
  }

  lemma NextInLastQuarter(i: bv7)
    requires i >> 5 == 3 && i < 111
    ensures Power(i + 1) == TimesX(Power(i))
  {
  }

  lemma NextPower(i: bv7)
    requires i < 111
    ensures Power(i + 1) == TimesX(Power(i))
  {
    hide Power, TimesX;
    match i >> 5
    case 0 => NextInFirstQuarter(i);
    case 1 => NextInSecondQuarter(i);
    case 2 => NextInThirdQuarter(i);
    case _ => NextInLastQuarter(i);
  }

  lemma EndPowers()
    ensures Power(0) == 1 && Power(111) == TableEntryAt(0)
  {
  }

  // The sum of 1, a power and a later one.
  function WithOne(a: bv7, b: bv7): bv32 {
    1 ^ Power(a) ^ Power(b)
  }

  lemma NoFourthTo16(a: bv7, b: bv7)
    requires 0 < a < b < 112 && a < 16
    ensures !IsPower(WithOne(a, b))
  {
  }

  lemma NoFourthTo36(a: bv7, b: bv7)
    requires 16 <= a < b < 112 && a < 36
    ensures !IsPower(WithOne(a, b))
  {
  }

  lemma NoFourthTo60(a: bv7, b: bv7)
    requires 36 <= a < b < 112 && a < 60
    ensures !IsPower(WithOne(a, b))
  {
  }

  lemma NoFourthBehind(a: bv7, b: bv7)
    requires 60 <= a < b < 112
    ensures !IsPower(WithOne(a, b))
  {
  }

  // The index of a power.
  lemma {:induction false} IndexOf(k: nat) returns (i: bv7)
    requires k < LONG_MSG_BITS
    ensures i < 112 && Power(i) == XToThe(k) && (i == 0 <==> k == 0)
  {
    hide TimesX, Power, TableRow;
    EndPowers();
    if k == 0 {
      i := 0;
    } else {
      var j := IndexOf(k - 1);
      if j == 111 {
        EntryIsMonomial(0);
        MonomialsDistinct(k - 1, 111);
      }
      NextPower(j);
      i := j + 1;
    }
  }

  // ------------------------------------------------------------------- four errors

  function Sum(a: bv32, b: bv32, c: bv32, d: bv32): bv32 {
    Plus(Plus(a, b), Plus(c, d))
  }

  lemma SumZero(a: bv32, b: bv32, c: bv32, d: bv32)
    ensures Sum(a, b, c, d) == Plus(Plus(Plus(a, b), c), d)
    ensures Sum(a, b, c, d) == 0 <==> Plus(Plus(a, b), c) == d
    ensures Sum(a, b, c, d) == Sum(b, a, c, d) == Sum(a, c, b, d) == Sum(a, b, d, c)
  {
    hide Plus;
    PlusAssociative(Plus(a, b), c, d);
    SumIsZero(Plus(Plus(a, b), c), d);
    PlusCommutative(a, b);
    PlusCommutative(c, d);
    PlusRearrange(a, b, c, d);
  }

  lemma SumShifted(a: bv32, b: bv32, c: bv32, d: bv32)
    requires IsResidue(a) && IsResidue(b) && IsResidue(c) && IsResidue(d) && Sum(a, b, c, d) != 0
    ensures Sum(TimesX(a), TimesX(b), TimesX(c), TimesX(d)) != 0
  {
    hide TimesX, Plus, IsResidue;
    TimesXLinear(a, b);
    TimesXLinear(c, d);
    TimesXLinear(Plus(a, b), Plus(c, d));
    PlusResidue(a, b);
    PlusResidue(c, d);
    PlusResidue(Plus(a, b), Plus(c, d));
    if TimesX(Sum(a, b, c, d)) == 0 {
      TimesXKernel(Sum(a, b, c, d));
    }
  }

  lemma PowerIsResidue(k: nat)
    ensures IsResidue(XToThe(k))
  {
    hide TimesXToThe, IsResidue;
    OneIsResidue();
    TimesXToTheResidue(k, 1);
  }

  lemma OneIsNotAmong(q: nat, r: nat, s: nat)
    requires 0 < q < LONG_MSG_BITS && 0 < r < LONG_MSG_BITS && s < LONG_MSG_BITS && q != r
    ensures Sum(1, XToThe(q), XToThe(r), XToThe(s)) != 0
  {
    hide XToThe, Power, IsPower, Sum, Plus;
    var a := IndexOf(q);
    var b := IndexOf(r);
    var c := IndexOf(s);
    if q < r {
      MonomialsDistinct(q, r);
    } else {
      MonomialsDistinct(r, q);
    }
    NoFourth(a, b);
    PowersAreListed(c);
    SumZero(1, XToThe(q), XToThe(r), XToThe(s));
  }

  lemma NoFourth(a: bv7, b: bv7)
    requires 0 < a < 112 && 0 < b < 112 && a != b
    ensures !IsPower(Plus(Plus(1, Power(a)), Power(b)))
  {
    hide Power, IsPower;
    var i, j := if a < b then a else b, if a < b then b else a;
    if i < 16 {
      NoFourthTo16(i, j);
    } else if i < 36 {
      NoFourthTo36(i, j);
    } else if i < 60 {
      NoFourthTo60(i, j);
    } else {
      NoFourthBehind(i, j);
    }
    assert WithOne(i, j) == Plus(Plus(1, Power(a)), Power(b));
  }

  /** Four different powers of x never cancel. */
  lemma {:induction false} FourPowersRemain(p: nat, q: nat, r: nat, s: nat)
    requires p < LONG_MSG_BITS && q < LONG_MSG_BITS && r < LONG_MSG_BITS && s < LONG_MSG_BITS
    requires p != q && p != r && p != s && q != r && q != s && r != s
    ensures Sum(XToThe(p), XToThe(q), XToThe(r), XToThe(s)) != 0
  {
    hide TimesX, Sum;
    if p == 0 {
      OneIsNotAmong(q, r, s);
    } else if q == 0 {
      OneIsNotAmong(p, r, s);
      SumZero(XToThe(p), XToThe(q), XToThe(r), XToThe(s));
    } else if r == 0 {
      FourPowersRemain(p, r, q, s);
      SumZero(XToThe(p), XToThe(q), XToThe(r), XToThe(s));
    } else if s == 0 {
      FourPowersRemain(p, q, s, r);
      SumZero(XToThe(p), XToThe(q), XToThe(r), XToThe(s));
    } else {
      FourPowersRemain(p - 1, q - 1, r - 1, s - 1);
      PowerIsResidue(p - 1);
      PowerIsResidue(q - 1);
      PowerIsResidue(r - 1);
      PowerIsResidue(s - 1);
      SumShifted(XToThe(p - 1), XToThe(q - 1), XToThe(r - 1), XToThe(s - 1));
    }
  }

  /** No pattern of one to four errors has the syndrome of an intact message. */
  lemma NeverIntact(n: nat, errors: set<nat>)
    requires n <= LONG_MSG_BITS && 1 <= |errors| <= 4 && forall i :: i in errors ==> i < n
    ensures PatternSyndrome(n, errors) != 0
  {
    hide PatternSyndrome, Coefficient, Sum, XToThe, Plus;
    if |errors| % 2 == 1 {
      OddOfPattern(n, errors);
      OddOfLowBits(24);
    } else if |errors| == 2 {
      TwoErrors(n, errors);
    } else {
      var i, rest := TakeOne(n, errors);
      var j, two := TakeOne(n, rest);
      var k, one := TakeOne(n, two);
      var l := Singleton(one);
      SyndromeOfOne(n, l);
      FourPowersRemain(n - 1 - l, n - 1 - k, n - 1 - j, n - 1 - i);
      SumZero(XToThe(n - 1 - l), XToThe(n - 1 - k), XToThe(n - 1 - j), XToThe(n - 1 - i));
    }
  }

  // An error of the pattern, and its share of the syndrome.
  lemma TakeOne(n: nat, errors: set<nat>) returns (i: nat, rest: set<nat>)
    requires errors != {} && forall i :: i in errors ==> i < n
    ensures i in errors && rest == errors - {i} && |rest| == |errors| - 1 && forall k :: k in rest ==> k < n
    ensures PatternSyndrome(n, errors) == Plus(PatternSyndrome(n, rest), XToThe(n - 1 - i))
  {
    hide PatternSyndrome, XToThe, Plus;
    i :| i in errors;
    rest := errors - {i};
    assert rest + {i} == errors;
    PatternSyndromeInsert(n, rest, i);
  }

  lemma TwoErrors(n: nat, errors: set<nat>)
    requires n <= LONG_MSG_BITS && |errors| == 2 && forall i :: i in errors ==> i < n
    ensures PatternSyndrome(n, errors) != 0
  {
    hide PatternSyndrome, XToThe, Plus;
    var i, rest := TakeOne(n, errors);
    var j := Singleton(rest);
    SinglesDiffer(n, j, i);
    SyndromeOfOne(n, i);
    SumIsZero(PatternSyndrome(n, rest), XToThe(n - 1 - i));
  }

  /** And none of two to four errors has the syndrome of a single error. */
  lemma NeverSingle(n: nat, errors: set<nat>, i: nat)
    requires n <= LONG_MSG_BITS && 2 <= |errors| <= 4 && (forall k :: k in errors ==> k < n) && i < n
    ensures PatternSyndrome(n, errors) != PatternSyndrome(n, {i})
  {
    hide PatternSyndrome, XToThe, Plus, Coefficient;
    var x := XToThe(n - 1 - i);
    SyndromeOfOne(n, i);
    if |errors| % 2 == 0 {
      OddOfPattern(n, errors);
      OddOfPattern(n, {i});
    } else if i in errors {
      var rest := errors - {i};
      assert rest + {i} == errors;
      PatternSyndromeInsert(n, rest, i);
      NeverIntact(n, rest);
      PlusZero(x);
      if Plus(PatternSyndrome(n, rest), x) == x {
        PlusCancel(PatternSyndrome(n, rest), 0, x);
      }
    } else {
      PatternSyndromeInsert(n, errors, i);
      NeverIntact(n, errors + {i});
      SumIsZero(PatternSyndrome(n, errors), x);
    }
  }

  /** A single error needs no check for collisions with up to four errors: it is isolated
      among them. */
  lemma SinglesAreIsolated(n: nat, i: nat)
    requires i < n <= LONG_MSG_BITS
    ensures Isolated(n, {i}, 4)
  {
    hide PatternSyndrome;
    forall t | ErrorSet(n, t, 4) && t != {i}
      ensures PatternSyndrome(n, t) != PatternSyndrome(n, {i})
    {
      if |t| == 1 {
        var j := Singleton(t);
        SinglesDiffer(n, i, j);
      } else {
        NeverSingle(n, t, i);
      }
    }
  }

  /** With one-bit correction, two to four errors are always noticed and never "repaired"
      into a different message. */
  lemma FewErrorsDetected(n: nat, errors: set<nat>, d: Diagnosis)
    requires n <= LONG_MSG_BITS && 2 <= |errors| <= 4 && forall i :: i in errors ==> i < n
    requires DiagnosisFor(d, n, 1, 1, PatternSyndrome(n, errors))
    ensures PatternSyndrome(n, errors) != 0 && d == Uncorrectable
  {
    hide PatternSyndrome, Describes, Isolated;
    NeverIntact(n, errors);
    forall s | Explains(s, n, 1, 1, PatternSyndrome(n, errors))
      ensures false
    {
      var i := Singleton(s);
      NeverSingle(n, errors, i);
    }
  }
}
