/** modesChecksumInit, modesChecksumDiagnose and modesChecksumFix of crc.c, and what a
    receiver may rely on when it repairs a message with them. */
module Correction {
  import opened Polynomial
  import opened MessageBits
  import opened Checksum
  import opened ErrorTable
  import opened CollisionFlags
  import opened PrepareTable
  import opened BridgeParity
  import opened SyndromeParity

  datatype Diagnosis = Uncorrectable | Correctable(info: ErrorInfo)

  const NO_ERRORS := ErrorInfo(0, 0, [0, 0])

  // How many errors are corrected and how many are told apart, for each setting.
  function MaxCorrect(fixBits: int): nat {
    if fixBits == 0 then 0 else if fixBits == 1 then 1 else 2
  }

  function MaxDetect(fixBits: int): nat {
    if fixBits == 0 then 0 else if fixBits == 1 then 1 else 4
  }

  // s is the only explanation of this syndrome by at most detect errors, and a
  // correctable one.
  ghost predicate Explains(s: set<nat>, n: nat, correct: nat, detect: nat, syndrome: bv32) {
    ErrorSet(n, s, correct) && Isolated(n, s, detect) && PatternSyndrome(n, s) == syndrome
  }

  // What modesChecksumDiagnose promises about its answer.
  ghost predicate DiagnosisFor(d: Diagnosis, n: nat, correct: nat, detect: nat, syndrome: bv32) {
    if syndrome == 0 then d == Correctable(NO_ERRORS)
    else match d
      case Correctable(e) => exists s :: Describes(e, n, s) && Explains(s, n, correct, detect, syndrome)
      case Uncorrectable => forall s :: !Explains(s, n, correct, detect, syndrome)
  }

  // ------------------------------------------------------------- what it means

  /** A message whose checksum was zero and that suffered at most `detect` errors is
      restored exactly, whenever its syndrome is not zero and a diagnosis is made. */
  lemma CorrectionRestores(original: seq<bool>, errors: set<nat>, correct: nat, detect: nat, e: ErrorInfo, s: set<nat>)
    requires Remainder(original) == 0 && ErrorSet(|original|, errors, detect)
    requires Describes(e, |original|, s)
    requires Explains(s, |original|, correct, detect, Remainder(Flip(original, errors)))
    ensures Flip(Flip(original, errors), SetOf(e)) == original
  {
    hide Remainder, Plus;
    FlipAddsPatternSyndrome(original, errors);
    PlusZero(PatternSyndrome(|original|, errors));
    assert errors == s;
    FlipTwice(original, errors);
  }

  /** Every repair leaves a message with checksum zero and an untouched format field. */
  lemma RepairIsConsistent(received: seq<bool>, n: nat, correct: nat, detect: nat, e: ErrorInfo, s: set<nat>)
    requires |received| == n && Describes(e, n, s) && Explains(s, n, correct, detect, Remainder(received))
    ensures Remainder(Flip(received, SetOf(e))) == 0
    ensures forall i :: 0 <= i < 5 && i < n ==> Flip(received, SetOf(e))[i] == received[i]
    ensures 1 <= e.errors <= correct
  {
    hide Remainder, Plus, Isolated;
    FlipAddsPatternSyndrome(received, s);
    PlusZero(Remainder(received));
  }

  // ------------------------------------------------- the single-error setting

  lemma SyndromeOfOne(n: nat, i: nat)
    requires i < n
    ensures PatternSyndrome(n, {i}) == XToThe(n - 1 - i)
  {
    hide TimesX, Plus, BitValue;
    assert Flip(Zeros(n), {i}) == OneBit(n, i);
    RemainderOneBit(n, i);
  }

  lemma Singleton(s: set<nat>) returns (i: nat)
    requires |s| == 1
    ensures s == {i}
  {
    i :| i in s;
    assert |s - {i}| == 0;
  }

  lemma SinglesDiffer(n: nat, i: nat, j: nat)
    requires i < n && j < n <= LONG_MSG_BITS && i != j
    ensures PatternSyndrome(n, {i}) != PatternSyndrome(n, {j})
  {
    hide XToThe, PatternSyndrome;
    SyndromeOfOne(n, i);
    SyndromeOfOne(n, j);
    if i < j {
      MonomialsDistinct(n - 1 - j, n - 1 - i);
    } else {
      MonomialsDistinct(n - 1 - i, n - 1 - j);
    }
  }

  /** With one-bit correction, every single error outside the format field is repaired. */
  lemma EverySingleErrorCorrectable(n: nat, i: nat, d: Diagnosis)
    requires 5 <= i < n <= LONG_MSG_BITS
    requires DiagnosisFor(d, n, 1, 1, PatternSyndrome(n, {i}))
    ensures d.Correctable? && Describes(d.info, n, {i})
  {
    hide PatternSyndrome, Describes;
    SingleNotZero(n, i);
    SingleExplained(n, i);
  }

  /** A single error explains its own syndrome. */
  lemma SingleExplained(n: nat, i: nat)
    requires FIRST_BIT <= i < n <= LONG_MSG_BITS
    ensures Explains({i}, n, 1, 1, PatternSyndrome(n, {i}))
  {
    hide PatternSyndrome;
    forall t | ErrorSet(n, t, 1) && t != {i}
      ensures PatternSyndrome(n, t) != PatternSyndrome(n, {i})
    {
      var j := Singleton(t);
      SinglesDiffer(n, i, j);
    }
  }

  lemma SingleNotZero(n: nat, i: nat)
    requires i < n
    ensures PatternSyndrome(n, {i}) != 0
  {
    hide PatternSyndrome, Coefficient;
    OddOfPattern(n, {i});
    OddOfLowBits(24);
  }

  /** An odd number of errors is never mistaken for an intact message. */
  lemma OddErrorsDetected(original: seq<bool>, errors: set<nat>)
    requires Remainder(original) == 0 && |errors| % 2 == 1
    requires forall i :: i in errors ==> i < |original|
    ensures Remainder(Flip(original, errors)) != 0
  {
    hide Remainder, Plus, Coefficient;
    FlipAddsPatternSyndrome(original, errors);
    PlusZero(PatternSyndrome(|original|, errors));
    OddOfPattern(|original|, errors);
    OddOfLowBits(24);
  }

  // --------------------------------------------------------------- the code

  lemma DiagnosisFromTable(es: seq<ErrorInfo>, n: nat, correct: nat, detect: nat, syndrome: bv32, d: Diagnosis)
    requires syndrome != 0 && CorrectionTable(es, n, correct, detect)
    requires match d
      case Correctable(e) => e in es && Key(e) == SyndromeKey(syndrome)
      case Uncorrectable => forall k :: 0 <= k < |es| ==> Key(es[k]) != SyndromeKey(syndrome)
    ensures DiagnosisFor(d, n, correct, detect, syndrome)
  {
    hide PatternSyndrome, Key, SyndromeKey, Describes, ErrorSet, Isolated, StrictlySorted;
    match d
    case Correctable(e) =>
      var s :| ErrorSet(n, s, correct) && Describes(e, n, s);
      DescribesSyndrome(e, n, s);
      SyndromeKeyInjective(PatternSyndrome(n, s), syndrome);
      assert Explains(s, n, correct, detect, syndrome);
    case Uncorrectable =>
      forall s | Explains(s, n, correct, detect, syndrome)
        ensures false
      {
        var e :| e in es && Describes(e, n, s);
        DescribesSyndrome(e, n, s);
      }
  }

  // Positions of a repair that the message has room for.
  predicate FixFits(info: ErrorInfo, bits: nat) {
    0 <= info.errors <= |info.bit| &&
    (forall k :: 0 <= k < info.errors ==> 0 <= info.bit[k] < bits) &&
    (forall j, k :: 0 <= j < k < info.errors ==> info.bit[j] != info.bit[k])
  }

  lemma DescribedFixFits(e: ErrorInfo, n: nat, s: set<nat>, correct: nat)
    requires Describes(e, n, s) && ErrorSet(n, s, correct)
    ensures FixFits(e, n)
  {
    hide PatternSyndrome;
    assert forall k :: 0 <= k < e.errors ==> e.bit[k] in s;
    assert e.errors == 2 ==> SetOf(e) == {e.bit[0], e.bit[1]};
  }

  // What modesChecksumFix makes of a message.
  function Fixed(msg: seq<bv8>, d: Diagnosis): (r: seq<bv8>)
    requires d.Correctable? ==> FixFits(d.info, 8 * |msg|)
    ensures |r| == |msg|
  {
    if d.Uncorrectable? then msg else FlipBits(msg, d.info.bit, d.info.errors)
  }

  lemma FixedBits(msg: seq<bv8>, d: Diagnosis)
    requires d.Correctable? && FixFits(d.info, 8 * |msg|)
    ensures BitsOf(Fixed(msg, d)) == Flip(BitsOf(msg), SetOf(d.info))
  {
    hide BitAt, FlipBit;
    FlipBitsFlips(msg, d.info.bit, d.info.errors);
  }

  /** modesChecksumFix */
  method ModesChecksumFix(msg: array<bv8>, d: Diagnosis)
    requires d.Correctable? ==> FixFits(d.info, 8 * msg.Length)
    modifies msg
    ensures msg[..] == Fixed(old(msg[..]), d)
    ensures d.Correctable? ==> BitsOf(msg[..]) == Flip(old(BitsOf(msg[..])), SetOf(d.info))
  {
    hide TopBit, Mask, XorByte;
    if d.Uncorrectable? {
      return;
    }
    var info := d.info;
    for i := 0 to info.errors
      invariant msg[..] == FlipBits(old(msg[..]), info.bit, i)
    {
      ghost var was := msg[..];
      var b := info.bit[i];
      msg[b / 8] := XorByte(msg[b / 8], Mask(b % 8));
      assert msg[..] == FlipBit(was, b);
    }
    FixedBits(old(msg[..]), d);
  }

  /** The two tables behind modesChecksumDiagnose. */
  class ErrorTables {
    const shortTable: array?<ErrorInfo>
    const shortSize: nat
    const longTable: array?<ErrorInfo>
    const longSize: nat
    const fixBits: int

    ghost function Arrays(): set<object?> {
      {shortTable, longTable}
    }

    ghost predicate TableValid(table: array?<ErrorInfo>, size: nat, bits: nat)
      reads table
    {
      if table == null then fixBits == 0
      else size <= table.Length && CorrectionTable(table[..size], bits, MaxCorrect(fixBits), MaxDetect(fixBits))
    }

    ghost predicate Valid()
      reads shortTable, longTable
    {
      TableValid(shortTable, shortSize, SHORT_MSG_BITS) && TableValid(longTable, longSize, LONG_MSG_BITS)
    }

    /** modesChecksumInit */
    constructor (tables: LookupTables, fixBits: int)
      requires tables.Valid()
      ensures Valid() && this.fixBits == fixBits
      ensures shortTable != null ==> fresh(shortTable)
      ensures longTable != null ==> fresh(longTable)
    {
      hide CorrectionTable;
      this.fixBits := fixBits;
      if fixBits == 0 {
        shortTable, shortSize := null, 0;
        longTable, longSize := null, 0;
      } else {
        var correct := if fixBits == 1 then 1 else 2;
        var detect := if fixBits == 1 then 1 else 4;
        var t, n := PrepareErrorTable(tables, SHORT_MSG_BITS, correct, detect);
        shortTable, shortSize := t, n;
        t, n := PrepareErrorTable(tables, LONG_MSG_BITS, correct, detect);
        longTable, longSize := t, n;
      }
    }

    /** modesChecksumDiagnose */
    method ModesChecksumDiagnose(syndrome: bv32, bitlen: nat) returns (d: Diagnosis)
      requires Valid()
      requires syndrome == 0 || bitlen == SHORT_MSG_BITS || bitlen == LONG_MSG_BITS
      ensures DiagnosisFor(d, bitlen, MaxCorrect(fixBits), MaxDetect(fixBits), syndrome)
      ensures fixBits == 0 && syndrome != 0 ==> d == Uncorrectable
      ensures fixBits == 1 ==> DiagnosisFor(d, bitlen, 1, 1, syndrome)
      ensures fixBits != 0 && fixBits != 1 ==> DiagnosisFor(d, bitlen, 2, 4, syndrome)
    {
      hide CorrectionTable, PatternSyndrome, Key, SyndromeKey, Describes, StrictlySorted, Isolated;
      if syndrome == 0 {
        return Correctable(NO_ERRORS);
      }
      var table, tablesize;
      if bitlen == SHORT_MSG_BITS {
        table, tablesize := shortTable, shortSize;
      } else {
        table, tablesize := longTable, longSize;
      }
      if table == null {
        return Uncorrectable;
      }
      TableIsSorted(table[..tablesize], bitlen, MaxCorrect(fixBits), MaxDetect(fixBits));
      var found, index := BSearch(syndrome, table, tablesize);
      d := if found then Correctable(table[index]) else Uncorrectable;
      DiagnosisFromTable(table[..tablesize], bitlen, MaxCorrect(fixBits), MaxDetect(fixBits), syndrome, d);
    }
  }

  lemma TableIsSorted(es: seq<ErrorInfo>, n: nat, correct: nat, detect: nat)
    requires CorrectionTable(es, n, correct, detect)
    ensures StrictlySorted(es)
  {
  }
}
