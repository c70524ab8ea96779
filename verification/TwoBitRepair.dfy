/** The setting that corrects two bits and tells up to four errors apart: what it promises in
    numbers, and a syndrome that it has to leave alone. */
module TwoBitRepair {
  import opened Polynomial
  import opened MessageBits
  import opened Checksum
  import opened Patterns
  import opened ErrorTable
  import opened BridgeParity
  import opened Correction
  import opened FewErrors

  /** A message with up to four errors behind its format is never made into another one: it is
      left alone, or one or two bits are inverted and it is as it was sent. */
  lemma FourErrorsAreHarmless(original: seq<bool>, errors: set<nat>, d: Diagnosis)
    requires |original| <= 112 && Remainder(original) == 0
    requires 1 <= |errors| <= 4 && forall i :: i in errors ==> 5 <= i < |original|
    requires DiagnosisFor(d, |original|, 2, 4, Remainder(Flip(original, errors)))
    ensures Remainder(Flip(original, errors)) != 0
    ensures d.Correctable? ==>
      1 <= d.info.errors <= 2 && FixFits(d.info, |original|) &&
      Flip(Flip(original, errors), SetOf(d.info)) == original
  {
    hide Remainder, Plus, PatternSyndrome, Isolated, Flip;
    FlipAddsPatternSyndrome(original, errors);
    PlusZero(PatternSyndrome(|original|, errors));
    NeverIntact(|original|, errors);
    FlipLength(original, errors);
    if d.Correctable? {
      var s :| Describes(d.info, |original|, s) &&
        Explains(s, |original|, 2, 4, Remainder(Flip(original, errors)));
      CorrectionRestores(original, errors, 2, 4, d.info, s);
      RepairIsConsistent(Flip(original, errors), |original|, 2, 4, d.info, s);
      DescribedFixFits(d.info, |original|, s, 2);
    }
  }

  lemma FlipLength(bits: seq<bool>, errors: set<nat>)
    ensures |Flip(bits, errors)| == |bits|
  {
  }

  // ------------------------------------------------------------- an ambiguous syndrome

  lemma TwoPowers()
    ensures XToThe(20) == 0x100000
    ensures TableEntryAt(5) == 0x9e31e9 && TableEntryAt(6) == 0xb0e2f0
    ensures TableEntryAt(10) == 0x0b0e2f && TableEntryAt(12) == 0x82c48d && TableEntryAt(41) == 0xb719bb
  {
    hide TimesX;
    LeftIsPower(1, 7);
    LeftIsPower(0x80, 8);
    LeftIsPower(0x8000, 5);
    TimesXToTheAdd(8, 7, 1);
    TimesXToTheAdd(5, 15, 1);
  }

  lemma PairSum()
    ensures 0x9e31e9 ^ 0xb0e2f0 == 0x2ed319 as bv32
    ensures 0x0b0e2f ^ 0x82c48d ^ 0xb719bb ^ 0x100000 == 0x2ed319 as bv32
  {
  }

  lemma PairSyndrome()
    ensures PatternSyndrome(112, {5, 6}) == 0x2ed319
  {
    hide PatternSyndrome, XToThe, TableRow;
    TwoPowers();
    EntryIsMonomial(5);
    EntryIsMonomial(6);
    SyndromeOfOne(112, 5);
    PatternSyndromeInsert(112, {5}, 6);
    assert {5} + {6} == {5, 6};
    PairSum();
  }

  lemma FourSyndrome()
    ensures PatternSyndrome(112, {10, 12, 41, 91}) == 0x2ed319
  {
    hide PatternSyndrome, XToThe, TableRow;
    TwoPowers();
    EntryIsMonomial(10);
    EntryIsMonomial(12);
    EntryIsMonomial(41);
    SyndromeOfOne(112, 10);
    PatternSyndromeInsert(112, {10}, 12);
    PatternSyndromeInsert(112, {10} + {12}, 41);
    PatternSyndromeInsert(112, {10} + {12} + {41}, 91);
    assert {10} + {12} + {41} + {91} == {10, 12, 41, 91};
    PairSum();
  }

  /** Two errors can look like four others. Such a syndrome is not repaired, although two
      inverted bits would make the checksum zero. */
  lemma AmbiguousIsLeftAlone(d: Diagnosis)
    requires DiagnosisFor(d, 112, 2, 4, 0x2ed319)
    ensures d == Uncorrectable
  {
    hide PatternSyndrome, Describes;
    PairSyndrome();
    FourSyndrome();
    var pair: set<nat>, four: set<nat> := {5, 6}, {10, 12, 41, 91};
    assert |pair| == 2 && |four| == 4 && 5 !in four;
    assert ErrorSet(112, pair, 4) && ErrorSet(112, four, 4);
    forall s | Explains(s, 112, 2, 4, 0x2ed319)
      ensures false
    {
    }
  }

  // ------------------------------------------------------------------------ the code

  /** What a receiver with two-bit correction makes of a message with up to four errors
      behind its format: nothing, or the message that was sent. */
  method RepairMessage(tables: LookupTables, msg: array<bv8>, ghost original: seq<bv8>, ghost errors: set<nat>)
    returns (repaired: bool)
    requires tables.Valid() && msg !in tables.Arrays()
    requires (msg.Length == 7 || msg.Length == 14) && |original| == msg.Length && Syndrome(original) == 0
    requires BitsOf(msg[..]) == Flip(BitsOf(original), errors)
    requires 1 <= |errors| <= 4 && forall i :: i in errors ==> 5 <= i < 8 * msg.Length
    modifies msg
    ensures msg[..] == if repaired then original else old(msg[..])
  {
    hide Syndrome, PatternSyndrome, Flip, BitsOf, FixFits, SetOf, DiagnosisFor, Fixed;
    var errorTables := new ErrorTables(tables, 2);
    var crc := tables.ModesChecksum(msg, 8 * msg.Length);
    var d := errorTables.ModesChecksumDiagnose(crc, 8 * msg.Length);
    assert msg[..8 * msg.Length / 8] == msg[..];
    Checked(msg[..], original, errors, d);
    if d.Uncorrectable? {
      return false;
    }
    ModesChecksumFix(msg, d);
    SameBits(msg[..], original);
    return true;
  }

  lemma Checked(msg: seq<bv8>, original: seq<bv8>, errors: set<nat>, d: Diagnosis)
    requires |msg| == |original| <= 14 && Syndrome(original) == 0 && BitsOf(msg) == Flip(BitsOf(original), errors)
    requires 1 <= |errors| <= 4 && forall i :: i in errors ==> 5 <= i < 8 * |msg|
    requires DiagnosisFor(d, 8 * |msg|, 2, 4, Syndrome(msg))
    ensures d.Correctable? ==> FixFits(d.info, 8 * |msg|) && Flip(BitsOf(msg), SetOf(d.info)) == BitsOf(original)
  {
    hide PatternSyndrome, Flip, DiagnosisFor, Remainder;
    FourErrorsAreHarmless(BitsOf(original), errors, d);
  }
}
