/** decodeModesMessage of mode_s.c: which messages are accepted, what is repaired in
    them, which address they are attributed to and which addresses become known. */
module ModeSDecode {
  import opened Basics
  import opened Polynomial
  import opened MessageBits
  import opened Checksum
  import opened Patterns
  import opened ErrorTable
  import opened Correction
  import opened AddressRing
  import opened ModeSFields
  import opened ModeS

  datatype Outcome = Rejected(code: int) | Accepted(fixed: Message, format: nat, corrected: set<nat>, addr: bv32)

  // -------------------------------------------------------------- reference

  // The bit of the format field whose damage turned 17 into this format.
  function DamagedBit(format: nat): nat {
    match format case 1 => 0 case 25 => 1 case 21 => 2 case 19 => 3 case _ => 4
  }

  predicate AddressParity(format: nat) {
    format == 0 || format == 4 || format == 5 || format == 16 || format == 20 || format == 21 || 24 <= format <= 31
  }

  // The errors that decoding undoes in a message of the given format, if it is
  // accepted at all.
  ghost function Repair(cfg: Config, known: set<bv32>, msg: Message, format: nat): Option<set<nat>> {
    var crc := ChecksumAs(msg, format);
    var errors := Explanation(cfg, LengthOf(format), crc);
    if AddressParity(format) then
      if crc in known then Some({}) else None
    else if format == 11 then
      if !BeyondInterrogator(crc) then Some({})
      else if errors.Some? && |errors.value| <= 1 && AddressAfter(msg, errors.value) in known then errors
      else None
    else if format == 17 || format == 18 then
      if errors.Some? &&
          (AddressAfter(msg, errors.value) == AddressField(msg) || AddressAfter(msg, errors.value) in known)
      then errors else None
    else None
  }

  // Bit k of the extended squitter payload, counted from 1.
  predicate PayloadBit(msg: Message, k: nat)
    requires 1 <= k <= 56
  {
    BitAt(msg, 31 + k)
  }

  function ControlField(msg: Message): nat {
    (msg[0] & 7) as nat
  }

  function PayloadType(msg: Message): nat {
    (msg[4] >> 3) as nat
  }

  function PayloadSubtype(msg: Message): nat {
    (msg[4] & 7) as nat
  }

  /** The format, the control field and the type and subtype of the payload are the numbers
      at bits 1 to 5, 6 to 8, 33 to 37 and 38 to 40; bit k of the payload is bit 32 + k. */
  lemma FieldsAreBits(msg: Message)
    ensures FormatOf(msg) == GetBits(msg, 1, 5) && ControlField(msg) == GetBits(msg, 6, 8)
    ensures PayloadType(msg) == GetBits(msg, 33, 37) && PayloadSubtype(msg) == GetBits(msg, 38, 40)
    ensures forall k :: 1 <= k <= 56 ==> (PayloadBit(msg, k) <==> GetBits(msg, 32 + k, 32 + k) == 1)
  {
    hide BitAt;
    ByteFields(msg, 0);
    ByteFields(msg, 4);
  }

  // The IMF bit, wherever this kind of payload carries it.
  predicate ImfSet(msg: Message) {
    var t, sub := PayloadType(msg), PayloadSubtype(msg);
    if t == 19 then 1 <= sub <= 4 && PayloadBit(msg, 9)
    else if 5 <= t <= 8 then PayloadBit(msg, 21)
    else if t == 0 || 9 <= t <= 18 || 20 <= t <= 22 then PayloadBit(msg, 8)
    else if t == 28 then sub == 1 && PayloadBit(msg, 56)
    else if t == 29 then PayloadBit(msg, 51)
    else if t == 31 then PayloadBit(msg, 56)
    else false
  }

  // Whether the address field of a squitter holds something else than an ICAO address.
  predicate NonIcao(msg: Message, format: nat) {
    format == 18 && match ControlField(msg)
      case 0 => false
      case 1 => true
      case 2 => ImfSet(msg)
      case 3 => PayloadBit(msg, 1)
      case 5 => true
      case 6 => ImfSet(msg)
      case _ => true
  }

  function MarkNonIcao(addr: bv32): bv32 {
    addr | MODES_NON_ICAO_ADDRESS
  }

  lemma MarkKeepsBits(addr: bv32)
    ensures Low24(MarkNonIcao(addr)) == Low24(addr) && !IsResidue(MarkNonIcao(addr))
  {
  }

  function Attributed(fixed: Message, format: nat): bv32 {
    if AddressParity(format) then ChecksumAs(fixed, format)
    else if NonIcao(fixed, format) then MarkNonIcao(AddressField(fixed))
    else AddressField(fixed)
  }

  // No address that might be known makes the message acceptable.
  ghost predicate Hopeless(cfg: Config, msg: Message, format: nat) {
    forall known: set<bv32> :: Repair(cfg, known, msg, format) == None
  }

  // The address that has to be known for a message to be accepted.
  ghost predicate Awaits(cfg: Config, msg: Message, format: nat, addr: bv32) {
    Repair(cfg, {addr}, msg, format).Some?
  }

  // What a refusal tells: -1 that an address is not known, and -2 that nothing helps.
  ghost predicate Refused(cfg: Config, msg: Message, format: nat, code: int, addr: bv32) {
    && (code < 0 ==> code == if Hopeless(cfg, msg, format) then -2 else -1)
    && (code == -1 ==> Awaits(cfg, msg, format, addr))
  }

  lemma RefusedForAddress(cfg: Config, msg: Message, format: nat, addr: bv32)
    requires Awaits(cfg, msg, format, addr)
    ensures Refused(cfg, msg, format, -1, addr)
  {
    hide Repair;
  }

  lemma RefusedForGood(cfg: Config, msg: Message, format: nat, addr: bv32)
    requires forall known: set<bv32> :: Repair(cfg, known, msg, format) == None
    ensures Refused(cfg, msg, format, -2, addr)
  {
    hide Repair;
  }

  ghost predicate Decodes(cfg: Config, known: set<bv32>, received: Message, o: Outcome) {
    if AllZeros(received) then o == Rejected(-2)
    else
      var damaged := DamagedSquitter(cfg, received);
      var msg := if damaged then AsSquitter(received) else received;
      var format := if damaged then 17 else FormatOf(received);
      var repair := Repair(cfg, known, msg, format);
      match o
      case Rejected(code) => repair == None && code == if Hopeless(cfg, msg, format) then -2 else -1
      case Accepted(fixed, f, corrected, addr) =>
        repair.Some? && f == format && BitsOf(fixed) == Flip(BitsOf(msg), repair.value) &&
        corrected == (if damaged then {DamagedBit(FormatOf(received))} else repair.value) &&
        addr == Attributed(fixed, format)
  }

  // The address that an accepted message makes known, if any.
  ghost predicate Announces(o: Outcome) {
    o.Accepted? && o.corrected == {} &&
    (o.format == 17 || (o.format == 11 && InterrogatorOf(ChecksumAs(o.fixed, 11)) == 0))
  }

  // ------------------------------------------------------------------- code

  /** The fields of struct modesMessage that validation sets. */
  class ModesMessage {
    const msg: array<bv8>
    var msgtype: nat
    var msgbits: nat
    var crc: bv32
    var addr: bv32
    var maybeAddr: bv32
    var AA: bv32
    var IID: bv32
    var correctedbits: nat

    constructor (received: Message)
      ensures fresh(msg) && msg[..] == received && msg.Length == LONG_MSG_BYTES
    {
      msg := new bv8[LONG_MSG_BYTES](i requires 0 <= i < LONG_MSG_BYTES => received[i]);
      msgtype, msgbits, crc, addr, maybeAddr, AA, IID, correctedbits := 0, 0, 0, 0, 0, 0, 0, 0;
    }
  }

  // An accepted message: what was repaired, and how the fields record it.
  ghost predicate Repaired(fixed: Message, msg: Message, repaired: set<nat>) {
    BitsOf(fixed) == Flip(BitsOf(msg), repaired)
  }

  lemma NothingRepaired(msg: Message)
    ensures Repaired(msg, msg, {})
  {
    hide BitAt;
  }

  lemma RepairedByFix(msg: Message, d: Diagnosis)
    requires d.Correctable? && FixFits(d.info, 8 * LONG_MSG_BYTES)
    ensures Repaired(Fixed(msg, d), msg, SetOf(d.info))
    ensures AddressField(Fixed(msg, d)) == AddressAfter(msg, SetOf(d.info))
  {
    hide BitsOf, Fixed, AddressField, AddressAfter, FixFits;
    FixedBits(msg, d);
    FixedAddress(msg, d);
  }

  lemma RepairOfSquitter(cfg: Config, known: set<bv32>, msg: Message, format: nat, d: Diagnosis)
    requires format == 17 || format == 18
    requires DiagnosisFor(d, LONG_MSG_BITS, MaxCorrect(cfg.nfixCrc), MaxDetect(cfg.nfixCrc), ChecksumAs(msg, format))
    ensures d.Uncorrectable? ==> Repair(cfg, known, msg, format) == None
    ensures d.Correctable? ==> FixFits(d.info, 8 * LONG_MSG_BYTES) && d.info.errors == |SetOf(d.info)|
    ensures d.Correctable? ==>
      Repair(cfg, known, msg, format) ==
        if AddressField(Fixed(msg, d)) == AddressField(msg) || AddressField(Fixed(msg, d)) in known
        then Some(SetOf(d.info)) else None
  {
    hide Syndrome, AddressField, Explanation, AddressAfter, Fixed, FixFits, SetOf, DiagnosisFor, BeyondInterrogator;
    ExplanationIsDiagnosis(cfg, LONG_MSG_BITS, ChecksumAs(msg, format), d);
    if d.Correctable? {
      RepairedByFix(msg, d);
    }
  }

  lemma RepairOfIntact(cfg: Config, known: set<bv32>, msg: Message, format: nat)
    requires format == 17 || format == 18
    requires ChecksumAs(msg, format) == 0
    ensures Repair(cfg, known, msg, format) == Some({})
  {
    hide Syndrome, AddressField, AddressAfter, BeyondInterrogator;
    NothingToFix(msg);
  }

  lemma RepairOfAllCall(cfg: Config, known: set<bv32>, msg: Message, d: Diagnosis)
    requires BeyondInterrogator(ChecksumAs(msg, 11))
    requires DiagnosisFor(d, SHORT_MSG_BITS, MaxCorrect(cfg.nfixCrc), MaxDetect(cfg.nfixCrc), ChecksumAs(msg, 11))
    ensures d.Uncorrectable? ==> Repair(cfg, known, msg, 11) == None
    ensures d.Correctable? ==> FixFits(d.info, 8 * LONG_MSG_BYTES) && d.info.errors == |SetOf(d.info)| > 0
    ensures d.Correctable? ==>
      Repair(cfg, known, msg, 11) ==
          if d.info.errors <= 1 && AddressField(Fixed(msg, d)) in known then Some(SetOf(d.info)) else None
  {
    hide Syndrome, AddressField, Explanation, AddressAfter, Fixed, FixFits, SetOf, DiagnosisFor, Isolated,
        PatternSyndrome,
      BeyondInterrogator, Within;
    var crc := ChecksumAs(msg, 11);
    BeyondNotZero(crc);
    ExplanationIsDiagnosis(cfg, SHORT_MSG_BITS, crc, d);
    if d.Correctable? {
      RepairedByFix(msg, d);
    }
  }

  lemma BeyondNotZero(crc: bv32)
    requires BeyondInterrogator(crc)
    ensures crc != 0
  {
  }

  lemma RepairOfRest(cfg: Config, known: set<bv32>, msg: Message, format: nat)
    ensures AddressParity(format) ==>
      Repair(cfg, known, msg, format) == if ChecksumAs(msg, format) in known then Some({}) else None
    ensures format == 11 && !BeyondInterrogator(ChecksumAs(msg, 11)) ==> Repair(cfg, known, msg, format) == Some({})
    ensures !AddressParity(format) && format != 11 && format != 17 && format != 18 ==>
      Repair(cfg, known, msg, format) == None
  {
    hide Syndrome, AddressField, Explanation, AddressAfter, BeyondInterrogator;
  }

  lemma DiagnosedNotIntact(cfg: Config, crc: bv32, n: nat, d: Diagnosis)
    requires n <= LONG_MSG_BITS && crc != 0 && d.Correctable?
    requires DiagnosisFor(d, n, MaxCorrect(cfg.nfixCrc), MaxDetect(cfg.nfixCrc), crc)
    ensures FixFits(d.info, n) && SetOf(d.info) != {}
  {
    hide PatternSyndrome, Isolated;
    ExplanationIsDiagnosis(cfg, n, crc, d);
  }

  /** The squitter cases of the switch over the message type. */
  method CheckSquitter(cfg: Config, errorTables: ErrorTables, ring: Ring, mm: ModesMessage)
    returns (result: int, ghost repaired: set<nat>)
    requires errorTables.Valid() && errorTables.fixBits == cfg.nfixCrc && ring.Valid()
    requires mm.msg as object != ring.seen && mm.msg.Length == LONG_MSG_BYTES
    requires mm.msgtype == 17 || mm.msgtype == 18
    requires mm.msgbits == LONG_MSG_BITS && mm.crc == ChecksumAs(mm.msg[..], mm.msgtype)
    modifies mm`correctedbits, mm`maybeAddr, mm.msg
    ensures ring.Valid() && ring.Order() == old(ring.Order())
    ensures result <= 0
    ensures result == 0 <==> Repair(cfg, ring.KnownAddresses(), old(mm.msg[..]), mm.msgtype).Some?
    ensures result == 0 ==>
      Some(repaired) == Repair(cfg, ring.KnownAddresses(), old(mm.msg[..]), mm.msgtype) &&
      Repaired(mm.msg[..], old(mm.msg[..]), repaired) &&
      mm.correctedbits == (if repaired == {} then old(mm.correctedbits) else |repaired|)
    ensures Refused(cfg, old(mm.msg[..]), mm.msgtype, result, mm.maybeAddr)
  {
    hide Syndrome, AddressField, AddressAfter, DiagnosisFor, Fixed, Repaired, Repair, Known, SetOf, BitsOf, NoRepeats,
      Hopeless;
    ghost var received: Message := mm.msg[..];
    repaired := {};
    if mm.crc == 0 {
      RepairOfIntact(cfg, ring.KnownAddresses(), received, mm.msgtype);
      NothingRepaired(received);
      return 0, {};
    }
    var ei := errorTables.ModesChecksumDiagnose(mm.crc, mm.msgbits);
    RepairOfSquitter(cfg, ring.KnownAddresses(), received, mm.msgtype, ei);
    if ei.Uncorrectable? {
      forall known
        ensures Repair(cfg, known, received, mm.msgtype) == None
      {
        RepairOfSquitter(cfg, known, received, mm.msgtype, ei);
      }
      RefusedForGood(cfg, received, mm.msgtype, mm.maybeAddr);
      return -2, {};
    }
    DiagnosedNotIntact(cfg, mm.crc, LONG_MSG_BITS, ei);
    RepairedByFix(received, ei);
    var addr1 := AddressField(mm.msg[..]);
    mm.correctedbits := ei.info.errors;
    ModesChecksumFix(mm.msg, ei);
    var addr2 := AddressField(mm.msg[..]);
    mm.maybeAddr := addr2;
    if addr1 != addr2 {
      var known := ring.IcaoFilterTest(addr2);
      if !known {
        RepairOfSquitter(cfg, {addr2}, received, mm.msgtype, ei);
        RefusedForAddress(cfg, received, mm.msgtype, addr2);
        return -1, {};
      }
    }
    return 0, SetOf(ei.info);
  }

  /** The all-call reply case of the switch. */
  method CheckAllCall(cfg: Config, errorTables: ErrorTables, ring: Ring, mm: ModesMessage)
    returns (result: int, ghost repaired: set<nat>)
    requires errorTables.Valid() && errorTables.fixBits == cfg.nfixCrc && ring.Valid()
    requires mm.msg as object != ring.seen && mm.msg.Length == LONG_MSG_BYTES
    requires mm.msgtype == 11
    requires mm.msgbits == SHORT_MSG_BITS && mm.crc == ChecksumAs(mm.msg[..], 11)
    modifies mm`correctedbits, mm`maybeAddr, mm`IID, mm.msg
    ensures ring.Valid() && ring.Order() == old(ring.Order())
    ensures result <= 0
    ensures result == 0 <==> Repair(cfg, ring.KnownAddresses(), old(mm.msg[..]), 11).Some?
    ensures result == 0 ==>
      Some(repaired) == Repair(cfg, ring.KnownAddresses(), old(mm.msg[..]), 11) &&
      Repaired(mm.msg[..], old(mm.msg[..]), repaired) &&
      mm.correctedbits == (if repaired == {} then old(mm.correctedbits) else |repaired|) &&
      mm.IID == (if repaired == {} then InterrogatorOf(mm.crc) else 0)
    ensures Refused(cfg, old(mm.msg[..]), 11, result, mm.maybeAddr)
  {
    hide Syndrome, AddressField, AddressAfter, DiagnosisFor, Fixed, Repaired, Repair, Known, SetOf, BitsOf, NoRepeats,
      BeyondInterrogator, InterrogatorOf, Hopeless;
    ghost var received: Message := mm.msg[..];
    mm.IID := InterrogatorOf(mm.crc);
    mm.maybeAddr := AddressField(mm.msg[..]);
    repaired := {};
    RepairOfRest(cfg, ring.KnownAddresses(), received, 11);
    NothingRepaired(received);
    if BeyondInterrogator(mm.crc) {
      var ei := errorTables.ModesChecksumDiagnose(mm.crc, mm.msgbits);
      RepairOfAllCall(cfg, ring.KnownAddresses(), received, ei);
      forall known
        ensures ei.Uncorrectable? || ei.info.errors > 1 ==> Repair(cfg, known, received, 11) == None
      {
        RepairOfAllCall(cfg, known, received, ei);
      }
      if ei.Uncorrectable? {
        RefusedForGood(cfg, received, 11, mm.maybeAddr);
        return -2, {};
      }
      if ei.info.errors > 1 {
        RefusedForGood(cfg, received, 11, mm.maybeAddr);
        return -2, {};
      }
      RepairedByFix(received, ei);
      mm.correctedbits := ei.info.errors;
      mm.IID := 0;
      ModesChecksumFix(mm.msg, ei);
      var addr := AddressField(mm.msg[..]);
      mm.maybeAddr := addr;
      var known := ring.IcaoFilterTest(addr);
      if !known {
        RepairOfAllCall(cfg, {addr}, received, ei);
        RefusedForAddress(cfg, received, 11, addr);
        return -1, {};
      }
      return 0, SetOf(ei.info);
    }
    return 0, {};
  }

  /** The switch over the message type: checks or repairs the message. */
  method ValidateChecksum(cfg: Config, errorTables: ErrorTables, ring: Ring, mm: ModesMessage)
    returns (result: int, ghost repaired: set<nat>)
    requires errorTables.Valid() && errorTables.fixBits == cfg.nfixCrc && ring.Valid()
    requires mm.msg as object != ring.seen && mm.msg.Length == LONG_MSG_BYTES && mm.msgtype < 32
    requires mm.msgbits == LengthOf(mm.msgtype) && mm.crc == ChecksumAs(mm.msg[..], mm.msgtype)
    modifies mm`correctedbits, mm`maybeAddr, mm`IID, mm`addr, mm.msg
    ensures ring.Valid() && ring.Order() == old(ring.Order())
    ensures result <= 0
    ensures result == 0 <==> Repair(cfg, ring.KnownAddresses(), old(mm.msg[..]), mm.msgtype).Some?
    ensures result == 0 ==>
      Some(repaired) == Repair(cfg, ring.KnownAddresses(), old(mm.msg[..]), mm.msgtype) &&
      Repaired(mm.msg[..], old(mm.msg[..]), repaired) &&
      mm.correctedbits == (if repaired == {} then old(mm.correctedbits) else |repaired|) &&
      (AddressParity(mm.msgtype) ==> mm.addr == mm.crc && repaired == {}) &&
      (mm.msgtype == 11 ==> mm.IID == (if repaired == {} then InterrogatorOf(mm.crc) else 0))
    ensures Refused(cfg, old(mm.msg[..]), mm.msgtype, result, mm.maybeAddr)
  {
    hide Syndrome, AddressField, AddressAfter, Repaired, Repair, Known, SetOf, BitsOf, NoRepeats,
      BeyondInterrogator, InterrogatorOf, AddressParity, ChecksumAs, Hopeless;
    AddressParityFormats(mm.msgtype);
    result, repaired := 0, {};
    RepairOfRest(cfg, ring.KnownAddresses(), mm.msg[..], mm.msgtype);
    NothingRepaired(mm.msg[..]);
    if AddressParity(mm.msgtype) {
      mm.maybeAddr := mm.crc;
      var known := ring.IcaoFilterTest(mm.crc);
      if !known {
        RepairOfRest(cfg, {mm.crc}, mm.msg[..], mm.msgtype);
        RefusedForAddress(cfg, mm.msg[..], mm.msgtype, mm.crc);
        return -1, {};
      }
      mm.addr := mm.crc;
    } else if mm.msgtype == 11 {
      result, repaired := CheckAllCall(cfg, errorTables, ring, mm);
    } else if mm.msgtype == 17 || mm.msgtype == 18 {
      result, repaired := CheckSquitter(cfg, errorTables, ring, mm);
    } else {
      forall known
        ensures Repair(cfg, known, mm.msg[..], mm.msgtype) == None
      {
        RepairOfRest(cfg, known, mm.msg[..], mm.msgtype);
      }
      RefusedForGood(cfg, mm.msg[..], mm.msgtype, mm.maybeAddr);
      return -2, {};
    }
  }

  /** setIMF: the address keeps its 24 bits, and is no ICAO address any more. */
  method SetIMF(mm: ModesMessage)
    modifies mm`addr
    ensures mm.addr == MarkNonIcao(old(mm.addr))
    ensures Low24(mm.addr) == Low24(old(mm.addr)) && !IsResidue(mm.addr)
  {
    hide MarkNonIcao, IsResidue, Low24;
    MarkKeepsBits(mm.addr);
    mm.addr := MarkNonIcao(mm.addr);
  }

  /** decodeExtendedSquitter, as far as the address is concerned */
  method DecodeExtendedSquitter(mm: ModesMessage)
    requires mm.msg.Length == LONG_MSG_BYTES && (mm.msgtype == 17 || mm.msgtype == 18)
    modifies mm`addr
    ensures mm.addr == if NonIcao(mm.msg[..], mm.msgtype) then MarkNonIcao(old(mm.addr)) else old(mm.addr)
  {
    hide BitAt, MarkNonIcao;
    var msg: Message := mm.msg[..];
    var metype, mesub := PayloadType(msg), PayloadSubtype(msg);
    var checkImf := false;
    if mm.msgtype == 18 {
      match ControlField(msg) {
        case 0 =>
        case 1 =>
          SetIMF(mm);
        case 2 =>
          checkImf := true;
        case 3 =>
          if PayloadBit(msg, 1) {
            SetIMF(mm);
          }
          return;
        case 5 =>
          SetIMF(mm);
        case 6 =>
          checkImf := true;
        case _ =>
          SetIMF(mm);
          return;
      }
    }
    // the decoders of the payload types, each with its own place for the IMF bit
    match metype {
      case 19 =>
        if mesub < 1 || mesub > 4 {
          return;
        }
        if checkImf && PayloadBit(msg, 9) {
          SetIMF(mm);
        }
      case 5 | 6 | 7 | 8 =>
        if checkImf && PayloadBit(msg, 21) {
          SetIMF(mm);
        }
      case 0 | 9 | 10 | 11 | 12 | 13 | 14 | 15 | 16 | 17 | 18 | 20 | 21 | 22 =>
        if checkImf {
          if PayloadBit(msg, 8) {
            SetIMF(mm);
          }
        }
      case 28 =>
        if mesub == 1 {
          if checkImf && PayloadBit(msg, 56) {
            SetIMF(mm);
          }
        }
      case 29 =>
        if checkImf && PayloadBit(msg, 51) {
          SetIMF(mm);
        }
      case 31 =>
        if checkImf && PayloadBit(msg, 56) {
          SetIMF(mm);
        }
      case _ =>
    }
  }

  lemma ChecksumFromBits(a: Message, b: Message, format: nat)
    requires BitsOf(a) == BitsOf(b)
    ensures ChecksumAs(a, format) == ChecksumAs(b, format)
  {
    hide BitAt, Remainder;
    var n := LengthOf(format) / 8;
    BitsOfSlice(a, 0, n);
    BitsOfSlice(b, 0, n);
    assert a[0..n] == a[..n] && b[0..n] == b[..n];
  }

  // The message that the format check leaves behind, and its format.
  ghost function Presented(cfg: Config, received: Message): (Message, nat) {
    if DamagedSquitter(cfg, received) then (AsSquitter(received), 17) else (received, FormatOf(received))
  }

  // Whether a message is accepted while these addresses are known.
  ghost predicate WouldAccept(cfg: Config, known: set<bv32>, received: Message) {
    !AllZeros(received) &&
    var (msg, format) := Presented(cfg, received);
    Repair(cfg, known, msg, format).Some?
  }

  // What has been established when the end of decodeModesMessage is reached.
  lemma Accept(cfg: Config, known: set<bv32>, received: Message, msg: Message, format: nat, fixed: Message,
               repaired: set<nat>, corrected: set<nat>, addr: bv32)
    requires !AllZeros(received) && Presented(cfg, received) == (msg, format)
    requires Some(repaired) == Repair(cfg, known, msg, format) && Repaired(fixed, msg, repaired)
    requires corrected == if DamagedSquitter(cfg, received) then {DamagedBit(FormatOf(received))} else repaired
    requires AddressParity(format) ==> addr == ChecksumAs(msg, format) && repaired == {}
    requires !AddressParity(format) ==>
      addr == if NonIcao(fixed, format) then MarkNonIcao(AddressField(fixed)) else AddressField(fixed)
    ensures DamagedSquitter(cfg, received) ==> repaired == {} && |corrected| == 1
    ensures repaired == {} ==> ChecksumAs(fixed, format) == ChecksumAs(msg, format)
    ensures Decodes(cfg, known, received, Accepted(fixed, format, corrected, addr))
  {
    hide Syndrome, AddressField, AddressAfter, Repair, BitsOf, FormatField, SquitterByte, NonIcao, MarkNonIcao,
        AllZeros;
    if DamagedSquitter(cfg, received) {
      RepairOfIntact(cfg, known, msg, 17);
    }
    if repaired == {} {
      assert Flip(BitsOf(msg), {}) == BitsOf(msg);
      ChecksumFromBits(fixed, msg, format);
    }
  }

  lemma Reject(cfg: Config, known: set<bv32>, received: Message, msg: Message, format: nat, code: int, addr: bv32)
    requires !AllZeros(received) && Presented(cfg, received) == (msg, format)
    requires Repair(cfg, known, msg, format) == None && code < 0 && Refused(cfg, msg, format, code, addr)
    ensures Decodes(cfg, known, received, Rejected(code))
    ensures code == -1 ==> WouldAccept(cfg, {addr}, received)
  {
    hide Syndrome, AddressField, AddressAfter, Repair, BitsOf, FormatField, SquitterByte, AllZeros, Hopeless;
  }

  lemma RejectZeros(cfg: Config, known: set<bv32>, received: Message)
    requires AllZeros(received)
    ensures Decodes(cfg, known, received, Rejected(-2))
  {
    hide AllZeros;
  }

  /** The head of decodeModesMessage: format, format repair, length and checksum. */
  method Classify(cfg: Config, tables: LookupTables, mm: ModesMessage)
    requires tables.Valid() && mm.msg !in tables.Arrays() && mm.msg.Length == LONG_MSG_BYTES
    modifies mm, mm.msg
    ensures Presented(cfg, old(mm.msg[..])) == (mm.msg[..], mm.msgtype)
    ensures mm.msgtype < 32 && mm.msgbits == LengthOf(mm.msgtype) && mm.crc == ChecksumAs(mm.msg[..], mm.msgtype)
    ensures mm.correctedbits == if DamagedSquitter(cfg, old(mm.msg[..])) then 1 else 0
  {
    hide Syndrome, FormatField, SquitterByte, DamagedSquitter;
    mm.msgtype := FormatField(mm.msg[0]);
    mm.correctedbits := 0;
    FormatBounded(mm.msg[0]);
    var orig, t := FixDF17MsgType(cfg, tables, mm.msg, mm.msgtype);
    mm.msgtype := t;
    if orig != 0 {
      mm.correctedbits := 1;
    }
    mm.msgbits := LengthOf(mm.msgtype);
    tables.ArraysApart(mm.msg);
    mm.crc := tables.ModesChecksum(mm.msg, mm.msgbits);
    assert mm.msg[..][..mm.msgbits / 8] == mm.msg[..mm.msgbits / 8];
    mm.addr := HEX_UNKNOWN;
    mm.maybeAddr := HEX_UNKNOWN;
  }

  /** decodeModesMessage with decode_all and net_verbatim off, up to the address filter. */
  method DecodeModesMessage(cfg: Config, tables: LookupTables, errorTables: ErrorTables, ring: Ring, mm: ModesMessage)
    returns (result: int, ghost corrected: set<nat>)
    requires tables.Valid() && errorTables.Valid() && errorTables.fixBits == cfg.nfixCrc && ring.Valid()
    requires mm.msg !in tables.Arrays() && mm.msg !in errorTables.Arrays()
    requires mm.msg as object != ring.seen && mm.msg.Length == LONG_MSG_BYTES
    modifies mm, mm.msg, ring`next, ring.seen
    ensures ring.Valid()
    ensures var o := if result == 0 then Accepted(mm.msg[..], mm.msgtype, corrected, mm.addr) else Rejected(result);
      Decodes(cfg, old(ring.KnownAddresses()), old(mm.msg[..]), o) &&
      ring.Order() == if Announces(o) then Announce(old(ring.Order()), mm.addr) else old(ring.Order())
    ensures result == 0 ==> mm.correctedbits == |corrected|
    ensures result == -1 ==> WouldAccept(cfg, {mm.maybeAddr}, old(mm.msg[..]))
  {
    hide WouldAccept, Refused, Syndrome, AddressField, AddressAfter, Repair, Known, SetOf, BitsOf, NoRepeats,
      Explanation, ChecksumAs,
      BeyondInterrogator, InterrogatorOf, FormatField, SquitterByte, NonIcao, MarkNonIcao, Announce, Flip,
      LookupTables.CrcTableFilled, Decodes, Repaired, AllZeros, Presented, DamagedSquitter, AddressParity;
    ghost var received: Message := mm.msg[..];
    ghost var known := ring.KnownAddresses();
    corrected := {};
    if AllZeros(mm.msg[..]) {
      RejectZeros(cfg, known, received);
      return -2, {};
    }
    Classify(cfg, tables, mm);
    ghost var msg: Message := mm.msg[..];
    ghost var repaired;
    result, repaired := ValidateChecksum(cfg, errorTables, ring, mm);
    if result != 0 {
      Reject(cfg, known, received, msg, mm.msgtype, result, mm.maybeAddr);
      return result, {};
    }
    corrected := if DamagedSquitter(cfg, received) then {DamagedBit(FormatOf(received))} else repaired;
    AddressParityFormats(mm.msgtype);
    if mm.msgtype == 11 || mm.msgtype == 17 || mm.msgtype == 18 {
      mm.AA := AddressField(mm.msg[..]);
      mm.maybeAddr := mm.AA;
      mm.addr := mm.AA;
    }
    if mm.msgtype == 17 || mm.msgtype == 18 {
      DecodeExtendedSquitter(mm);
    }
    RepairedFormats(cfg, known, msg, mm.msgtype);
    OnlySquitters(mm.msg[..], mm.msgtype);
    Accept(cfg, known, received, msg, mm.msgtype, mm.msg[..], repaired, corrected, mm.addr);
    if mm.correctedbits == 0 && (mm.msgtype == 17 || (mm.msgtype == 11 && mm.IID == 0)) {
      ring.IcaoFilterAdd(mm.addr);
    }
  }

  lemma AddressParityFormats(format: nat)
    ensures AddressParity(format) ==> format != 11 && format != 17 && format != 18
  {
  }

  lemma RepairedFormats(cfg: Config, known: set<bv32>, msg: Message, format: nat)
    ensures Repair(cfg, known, msg, format).Some? ==>
      AddressParity(format) || format == 11 || format == 17 || format == 18
  {
    hide Syndrome, AddressField, AddressAfter, Explanation, BeyondInterrogator;
  }

  lemma OnlySquitters(msg: Message, format: nat)
    ensures NonIcao(msg, format) ==> format == 18
  {
    hide BitAt;
  }
}
