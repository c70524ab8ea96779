/** Validation of received messages: scoreModesMessage, fixDF17msgtype and the checksum
    and address part of decodeModesMessage in mode_s.c. */
module ModeS {
  import opened Basics
  import opened Polynomial
  import opened MessageBits
  import opened Checksum
  import opened ErrorTable
  import opened Correction
  import opened AddressRing
  import opened ModeSFields

  datatype Config = Config(fixDF: bool, nfixCrc: int)

  const MODES_NON_ICAO_ADDRESS: bv32 := 0x1000000

  // --------------------------------------------------------------- reference

  // The explanation of a syndrome that the error tables settle on.
  ghost function Explanation(cfg: Config, n: nat, syndrome: bv32): Option<set<nat>> {
    var correct, detect := MaxCorrect(cfg.nfixCrc), MaxDetect(cfg.nfixCrc);
    if syndrome == 0 then Some({})
    else if exists s :: Explains(s, n, correct, detect, syndrome) then
      var s :| Explains(s, n, correct, detect, syndrome);
      Some(s)
    else None
  }

  predicate AllZeros(msg: Message) {
    forall k :: 0 <= k < SHORT_MSG_BYTES ==> msg[k] == 0
  }

  // One inverted bit away from 17.
  predicate OneBitFrom17(format: nat) {
    format == 1 || format == 25 || format == 21 || format == 19 || format == 16
  }

  function SquitterByte(first: bv8): bv8 {
    (first & 7) | (17 << 3)
  }

  function AsSquitter(msg: Message): Message {
    msg[0 := SquitterByte(msg[0])]
  }

  // fixDF17msgtype takes this message for a DF17 whose format field was damaged.
  ghost predicate DamagedSquitter(cfg: Config, msg: Message) {
    cfg.fixDF && cfg.nfixCrc != 0 && OneBitFrom17(FormatOf(msg)) &&
    ChecksumAs(AsSquitter(msg), 17) == 0
  }

  // The address field after the given errors are undone.
  ghost function AddressAfter(msg: Message, errors: set<nat>): bv32 {
    Remainder(Flip(BitsOf(msg), errors)[8..32])
  }

  ghost function Score(cfg: Config, known: set<bv32>, msg: Message, validbits: nat): int {
    if validbits < SHORT_MSG_BITS then -2
    else if validbits >= LONG_MSG_BITS && DamagedSquitter(cfg, msg) then
      if AddressField(msg) in known then 900 else 700
    else if validbits < LengthOf(FormatOf(msg)) || AllZeros(msg) then -2
    else ScoreAs(cfg, known, msg, FormatOf(msg))
  }

  // A DF11 parity field covers the interrogator code, which fills the low 7 bits.
  predicate BeyondInterrogator(crc: bv32) {
    crc & 0xffff80 != 0
  }

  function InterrogatorOf(crc: bv32): bv32 {
    crc & 0x7f
  }

  ghost function ScoreAs(cfg: Config, known: set<bv32>, msg: Message, format: nat): int {
    var crc := ChecksumAs(msg, format);
    var errors := Explanation(cfg, LengthOf(format), crc);
    if format == 0 || format == 4 || format == 5 || format == 16 || format == 20 || format == 21 then
      if crc in known then 1000 else -1
    else if format == 11 then
      if BeyondInterrogator(crc) then
        if errors == None || |errors.value| > 1 then -2
        else if AddressAfter(msg, errors.value) in known then 800 else -1
      else if InterrogatorOf(crc) == 0 then
        if AddressField(msg) in known then 1600 else 750
      else if AddressField(msg) in known then 1000 else -1
    else if format == 17 || format == 18 then
      if errors == None then -2
      else if AddressAfter(msg, errors.value) in known then 1800 / (|errors.value| + 1)
      else 1400 / (|errors.value| + 1)
    else -2
  }

  // ------------------------------------------------------------- small facts

  lemma AddressIsRemainder(msg: Message)
    ensures AddressField(msg) == Remainder(BitsOf(msg)[8..32])
  {
    hide Remainder, BitsOf, AddressField, Syndrome, Register, AddThreeBytes;
    BitsOfSlice(msg, 1, 4);
    assert msg[1..4] == [] + [msg[1], msg[2], msg[3]];
    LastThreeBytes([], msg[1], msg[2], msg[3]);
    RegisterOfNothing();
    SyndromeIs(msg[1..4]);
    AddressSum(msg);
  }

  lemma SyndromeIs(msg: seq<bv8>)
    ensures Syndrome(msg) == Remainder(BitsOf(msg))
  {
  }

  lemma AddressSum(msg: Message)
    ensures AddressField(msg) == AddThreeBytes(0, msg[1], msg[2], msg[3])
  {
    hide Byte16, Byte8, Plus;
    PlusZero(Byte16(msg[1]));
  }

  lemma BitsOfSlice(msg: seq<bv8>, i: nat, j: nat)
    requires i <= j <= |msg|
    ensures BitsOf(msg)[8 * i..8 * j] == BitsOf(msg[i..j])
  {
    hide TopBit;
    BitsOfConcat(msg[..i], msg[i..j]);
    BitsOfConcat(msg[..j], msg[j..]);
    assert msg[..i] + msg[i..j] == msg[..j];
    assert msg[..j] + msg[j..] == msg;
  }

  lemma NothingToFix(msg: Message)
    ensures AddressAfter(msg, {}) == AddressField(msg)
  {
    hide Remainder, BitsOf, AddressField;
    AddressIsRemainder(msg);
    assert Flip(BitsOf(msg), {}) == BitsOf(msg);
  }

  // A format one bit away from 17 is never zero in its byte.
  lemma DamagedByteNotZero(first: bv8)
    requires OneBitFrom17(FormatField(first))
    ensures first != 0
  {
  }

  lemma FormatBounded(first: bv8)
    ensures FormatField(first) < 32
  {
  }

  lemma ExplanationIsDiagnosis(cfg: Config, n: nat, syndrome: bv32, d: Diagnosis)
    requires n <= LONG_MSG_BITS
    requires DiagnosisFor(d, n, MaxCorrect(cfg.nfixCrc), MaxDetect(cfg.nfixCrc), syndrome)
    ensures d.Correctable? <==> Explanation(cfg, n, syndrome).Some?
    ensures d.Correctable? ==>
        FixFits(d.info, n) && FixFits(d.info, 8 * LONG_MSG_BYTES) &&
        Explanation(cfg, n, syndrome) == Some(SetOf(d.info))
    ensures d.Correctable? ==> d.info.errors == |SetOf(d.info)|
    ensures d.Correctable? && syndrome != 0 ==>
      Explains(SetOf(d.info), n, MaxCorrect(cfg.nfixCrc), MaxDetect(cfg.nfixCrc), syndrome)
  {
    hide PatternSyndrome;
    if syndrome == 0 {
      assert SetOf(NO_ERRORS) == {};
    } else if d.Correctable? {
      var correct, detect := MaxCorrect(cfg.nfixCrc), MaxDetect(cfg.nfixCrc);
      var s :| Describes(d.info, n, s) && Explains(s, n, correct, detect, syndrome);
      DescribedFixFits(d.info, n, s, correct);
    }
  }

  // ------------------------------------------------------------------- code

  /** correct_aa_field: the caller passes the address field of a message it has not
      repaired yet. */
  method CorrectAAField(addr0: bv32, d: Diagnosis, ghost msg: Message) returns (addr: bv32, addrErrors: nat)
    requires addr0 == AddressField(msg)
    requires d.Correctable? ==> FixFits(d.info, 8 * LONG_MSG_BYTES)
    ensures addr == AddressField(Fixed(msg, d))
    ensures d.Correctable? ==> addrErrors == |set i | i in SetOf(d.info) && 8 <= i < 32|
  {
    hide AddressField, FlipBit, AddressWeight, Plus;
    addr, addrErrors := addr0, 0;
    if d.Uncorrectable? {
      return;
    }
    var ei := d.info;
    ghost var inField: set<nat> := {};
    for i := 0 to ei.errors
      invariant addr == AddressField(FlipBits(msg, ei.bit, i))
      invariant inField == set k | 0 <= k < i && 8 <= ei.bit[k] < 32 :: ei.bit[k]
      invariant addrErrors == |inField|
    {
      FlipBitAddress(FlipBits(msg, ei.bit, i), ei.bit[i]);
      if ei.bit[i] >= 8 && ei.bit[i] <= 31 {
        addr := Plus(addr, AddressWeight(ei.bit[i]));
        assert ei.bit[i] !in inField;
        addrErrors := addrErrors + 1;
        inField := inField + {ei.bit[i]};
      }
    }
    assert inField == set i | i in SetOf(ei) && 8 <= i < 32;
  }

  method FixDF17MsgType(cfg: Config, tables: LookupTables, msg: array<bv8>, msgtype0: nat)
    returns (origByte: bv8, msgtype: nat)
    requires tables.Valid() && msg !in tables.Arrays()
    requires msg.Length == LONG_MSG_BYTES && msgtype0 == FormatOf(msg[..])
    modifies msg
    ensures DamagedSquitter(cfg, old(msg[..])) ==>
      origByte == old(msg[0]) && origByte != 0 && msgtype == 17 && msg[..] == AsSquitter(old(msg[..]))
    ensures !DamagedSquitter(cfg, old(msg[..])) ==>
      origByte == 0 && msgtype == msgtype0 && msg[..] == old(msg[..])
  {
    hide SquitterByte, FormatField, Syndrome;
    msgtype := msgtype0;
    if !cfg.fixDF || cfg.nfixCrc == 0 {
      return 0, msgtype;
    }
    if OneBitFrom17(msgtype) {
      origByte := msg[0];
      DamagedByteNotZero(origByte);
      msg[0] := SquitterByte(msg[0]);
      assert msg[..] == AsSquitter(old(msg[..]));
      tables.ArraysApart(msg);
      var res := tables.ModesChecksum(msg, LONG_MSG_BITS);
      if res == 0 {
        return origByte, 17;
      }
      msg[0] := origByte;
      assert msg[..] == old(msg[..]);
      return 0, msgtype;
    }
    return 0, msgtype;
  }

  method ScoreModesMessage(cfg: Config, tables: LookupTables, errorTables: ErrorTables, ring: Ring,
                           msg: array<bv8>, validbits: nat)
    returns (score: int)
    requires tables.Valid() && errorTables.Valid() && errorTables.fixBits == cfg.nfixCrc && ring.Valid()
    requires msg !in tables.Arrays() && msg as object != ring.seen
    requires msg.Length == LONG_MSG_BYTES
    modifies msg
    ensures msg[..] == old(msg[..])
    ensures score == Score(cfg, ring.KnownAddresses(), old(msg[..]), validbits)
  {
    hide Syndrome, AddressField, Explanation, FormatField, AddressAfter;
    if validbits < SHORT_MSG_BITS {
      return -2;
    }
    var msgtype := FormatField(msg[0]);
    ghost var received: Message := msg[..];
    if validbits >= LONG_MSG_BITS {
      var origByte, t := FixDF17MsgType(cfg, tables, msg, msgtype);
      if origByte != 0 {
        msg[0] := origByte;
        assert msg[..] == received;
        var known := ring.IcaoFilterTest(AddressField(msg[..]));
        return if known then 900 else 700;
      }
    }
    assert msg[..] == received;
    var msgbits := LengthOf(msgtype);
    if validbits < msgbits {
      return -2;
    }
    if AllZeros(msg[..]) {
      return -2;
    }
    score := ScoreChecked(cfg, tables, errorTables, ring, msg, msgtype);
  }

  // The part of scoreModesMessage that follows the sanity checks.
  method ScoreChecked(cfg: Config, tables: LookupTables, errorTables: ErrorTables, ring: Ring,
                      msg: array<bv8>, msgtype: nat)
    returns (score: int)
    requires tables.Valid() && errorTables.Valid() && errorTables.fixBits == cfg.nfixCrc && ring.Valid()
    requires msg.Length == LONG_MSG_BYTES
    ensures score == ScoreAs(cfg, ring.KnownAddresses(), msg[..], msgtype)
  {
    hide Syndrome, AddressField, Explanation, AddressAfter, PatternSyndrome, DiagnosisFor, Fixed, BeyondInterrogator,
      InterrogatorOf, Ring.KnownAddresses, Explains, SetOf, BitsOf, FixFits, ErrorTables.Valid,
          LookupTables.CrcTableFilled;
    var msgbits := LengthOf(msgtype);
    var crc := tables.ModesChecksum(msg, msgbits);
    assert crc == ChecksumAs(msg[..], msgtype);
    match msgtype {
      case 0 | 4 | 5 | 16 | 20 | 21 =>
        var known := ring.IcaoFilterTest(crc);
        return if known then 1000 else -1;
      case 11 =>
        var iid := InterrogatorOf(crc);
        var addr := AddressField(msg[..]);
        if BeyondInterrogator(crc) {
          var ei := errorTables.ModesChecksumDiagnose(crc, msgbits);
          ExplanationIsDiagnosis(cfg, msgbits, crc, ei);
          if ei.Uncorrectable? || ei.info.errors > 1 {
            return -2;
          }
          var n;
          addr, n := CorrectAAField(addr, ei, msg[..]);
          FixedAddress(msg[..], ei);
          var known := ring.IcaoFilterTest(addr);
          return if known then 800 else -1;
        }
        var known := ring.IcaoFilterTest(addr);
        if iid == 0 {
          return if known then 1600 else 750;
        } else {
          return if known then 1000 else -1;
        }
      case 17 | 18 =>
        var ei := errorTables.ModesChecksumDiagnose(crc, msgbits);
        ExplanationIsDiagnosis(cfg, msgbits, crc, ei);
        if ei.Uncorrectable? {
          return -2;
        }
        var addr, n := CorrectAAField(AddressField(msg[..]), ei, msg[..]);
        FixedAddress(msg[..], ei);
        var known := ring.IcaoFilterTest(addr);
        return if known then 1800 / (ei.info.errors + 1) else 1400 / (ei.info.errors + 1);
      case _ =>
        return -2;
    }
  }

  lemma FixedAddress(msg: Message, d: Diagnosis)
    requires d.Correctable? && FixFits(d.info, 8 * LONG_MSG_BYTES)
    ensures AddressField(Fixed(msg, d)) == AddressAfter(msg, SetOf(d.info))
  {
    hide Remainder, BitsOf, AddressField, Fixed;
    AddressIsRemainder(Fixed(msg, d));
    FixedBits(msg, d);
  }
}
