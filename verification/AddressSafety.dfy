/** What decodeModesMessage guarantees over a whole run: accepted squitters are intact,
    and every address that is trusted was announced by an undamaged message. */
module AddressSafety {
  import opened Basics
  import opened Polynomial
  import opened MessageBits
  import opened Checksum
  import opened Patterns
  import opened ErrorTable
  import opened Correction
  import opened AddressRing
  import opened ModeSFields
  import opened ModeS
  import opened ModeSDecode

  // ---------------------------------------------------------- one bit of format

  lemma SquitterByteFlips(first: bv8)
    requires OneBitFrom17(FormatField(first))
    ensures SquitterByte(first) == XorByte(first, Mask(DamagedBit(FormatField(first))))
  {
    var f := FormatField(first);
    if f == 1 {
      assert first >> 3 == 1;
      assert (first & 7) | 0x88 == first ^ 0x80;
    } else if f == 25 {
      assert first >> 3 == 25;
      assert (first & 7) | 0x88 == first ^ 0x40;
    } else if f == 21 {
      assert first >> 3 == 21;
      assert (first & 7) | 0x88 == first ^ 0x20;
    } else if f == 19 {
      assert first >> 3 == 19;
      assert (first & 7) | 0x88 == first ^ 0x10;
    } else {
      assert first >> 3 == 16;
      assert (first & 7) | 0x88 == first ^ 0x08;
    }
  }

  /** The format repair inverts exactly one bit. */
  lemma SquitterFlips(msg: Message)
    requires OneBitFrom17(FormatOf(msg))
    ensures BitsOf(AsSquitter(msg)) == Flip(BitsOf(msg), {DamagedBit(FormatOf(msg))})
  {
    hide SquitterByte, FormatField, BitAt, XorByte, Mask;
    SquitterByteFlips(msg[0]);
    FlipBitFlips(msg, DamagedBit(FormatOf(msg)));
  }

  lemma SyndromeOfLong(msg: Message, format: nat)
    requires format >= 16
    ensures ChecksumAs(msg, format) == Syndrome(msg)
  {
    hide Syndrome;
    assert msg[..14] == msg;
  }

  lemma ExplanationShape(cfg: Config, n: nat, syndrome: bv32)
    ensures var e := Explanation(cfg, n, syndrome);
      e.Some? ==> (e.value == {} <==> syndrome == 0) && PatternSyndrome(n, e.value) == syndrome &&
                  |e.value| <= MaxCorrect(cfg.nfixCrc) && Within(e.value, 0, n)
  {
    hide PatternSyndrome, Isolated;
    PatternSyndromeOfNone(n);
  }

  // An undamaged DF17.
  ghost predicate IntactDF17(msg: seq<bv8>) {
    |msg| == 14 && FormatField(msg[0]) == 17 && Syndrome(msg) == 0
  }

  // Inverting bit j gives the first byte of a DF17.
  lemma BackTo17(first: bv8, j: nat)
    requires j < 5 && FormatField(XorByte(first, Mask(j))) == 17
    ensures OneBitFrom17(FormatField(first)) && SquitterByte(first) == XorByte(first, Mask(j))
  {
    var back := first ^ Mask(j);
    assert back >> 3 == 17;
    match j
    case 0 => assert first >> 3 == 1 && (first & 7) | 0x88 == first ^ 0x80;
    case 1 => assert first >> 3 == 25 && (first & 7) | 0x88 == first ^ 0x40;
    case 2 => assert first >> 3 == 21 && (first & 7) | 0x88 == first ^ 0x20;
    case 3 => assert first >> 3 == 19 && (first & 7) | 0x88 == first ^ 0x10;
    case _ => assert first >> 3 == 16 && (first & 7) | 0x88 == first ^ 0x08;
  }

  lemma SquitterByteIs17(first: bv8)
    ensures FormatField(SquitterByte(first)) == 17
  {
    assert ((first & 7) | 0x88) >> 3 == 17;
  }

  /** A message is taken for a damaged DF17 exactly when inverting one of the five bits of
      its format gives an intact one, which is then what is decoded. */
  lemma DamagedExactly(cfg: Config, msg: Message)
    ensures DamagedSquitter(cfg, msg) <==>
      cfg.fixDF && cfg.nfixCrc != 0 && exists j: nat :: j < 5 && IntactDF17(FlipBit(msg, j))
    ensures forall j: nat :: j < 5 && IntactDF17(FlipBit(msg, j)) ==> AsSquitter(msg) == FlipBit(msg, j)
  {
    hide Syndrome, FormatField, SquitterByte, XorByte, Mask;
    forall j: nat | j < 5 && IntactDF17(FlipBit(msg, j))
      ensures AsSquitter(msg) == FlipBit(msg, j) && OneBitFrom17(FormatOf(msg))
    {
      BackTo17(msg[0], j);
    }
    SyndromeOfLong(AsSquitter(msg), 17);
    if DamagedSquitter(cfg, msg) {
      SquitterByteFlips(msg[0]);
      SquitterByteIs17(msg[0]);
      assert FlipBit(msg, DamagedBit(FormatOf(msg))) == AsSquitter(msg);
      assert IntactDF17(FlipBit(msg, DamagedBit(FormatOf(msg))));
    }
  }

  // ------------------------------------------------------------ accepted squitters

  /** An accepted extended squitter has checksum zero, differs from what was received
      in exactly the corrected bits, and either kept its address or was moved to an
      address that was already known. */
  lemma AcceptedSquitter(cfg: Config, known: set<bv32>, received: Message, o: Outcome)
    requires Decodes(cfg, known, received, o) && o.Accepted? && (o.format == 17 || o.format == 18)
    ensures Syndrome(o.fixed) == 0
    ensures BitsOf(o.fixed) == Flip(BitsOf(received), o.corrected)
    ensures |o.corrected| <= MaxCorrect(cfg.nfixCrc)
    ensures AddressField(o.fixed) == AddressField(received) || AddressField(o.fixed) in known
  {
    hide BitAt, SquitterByte, FormatField, Remainder, Plus, AddressField, Explains, Isolated, Explanation;
    var damaged := DamagedSquitter(cfg, received);
    var msg := if damaged then AsSquitter(received) else received;
    var crc := ChecksumAs(msg, o.format);
    var s := Repair(cfg, known, msg, o.format).value;
    ExplanationShape(cfg, LONG_MSG_BITS, crc);
    SyndromeOfLong(msg, o.format);
    SyndromeOfLong(o.fixed, o.format);
    FlipAddsPatternSyndrome(BitsOf(msg), s);
    PlusZero(crc);
    AddressIsRemainder(o.fixed);
    if damaged {
      SquitterFlips(received);
      SameAddress(received);
      NothingToFix(msg);
      assert s == {};
      assert Flip(BitsOf(msg), {}) == BitsOf(msg);
      AddressIsRemainder(msg);
    }
  }

  lemma SameAddress(msg: Message)
    ensures AddressField(AsSquitter(msg)) == AddressField(msg)
  {
    hide SquitterByte, Plus, Byte16, Byte8, Byte0;
  }

  // -------------------------------------------------------------- announcements

  lemma IntactAllCall(crc: bv32)
    requires IsResidue(crc) && !BeyondInterrogator(crc) && InterrogatorOf(crc) == 0
    ensures crc == 0
  {
  }

  lemma SyndromeResidue(msg: seq<bv8>)
    ensures IsResidue(Syndrome(msg))
  {
    hide Remainder, IsResidue;
    RemainderResidue(BitsOf(msg));
  }

  lemma AddressBelow24(msg: seq<bv8>)
    requires |msg| >= 4
    ensures IsResidue(AddressField(msg))
  {
    hide Plus, IsResidue, Byte16, Byte8, Byte0;
    ByteResidues(msg[1], msg[2], msg[3]);
    PlusResidue(Byte16(msg[1]), Byte8(msg[2]));
    PlusResidue(Plus(Byte16(msg[1]), Byte8(msg[2])), Byte0(msg[3]));
  }

  lemma ByteResidues(b0: bv8, b1: bv8, b2: bv8)
    ensures IsResidue(Byte16(b0)) && IsResidue(Byte8(b1)) && IsResidue(Byte0(b2))
  {
  }

  // A message that announces its address: DF17, or DF11 with interrogator code zero,
  // received without any error.
  predicate CleanAnnouncement(received: Message, addr: bv32) {
    (FormatOf(received) == 17 || FormatOf(received) == 11) &&
    ChecksumAs(received, FormatOf(received)) == 0 && addr == AddressField(received)
  }

  /** Only an undamaged announcement makes an address known, and only its own. */
  lemma AnnouncedCleanly(cfg: Config, known: set<bv32>, received: Message, o: Outcome)
    requires Decodes(cfg, known, received, o) && Announces(o)
    ensures CleanAnnouncement(received, o.addr) && IsResidue(o.addr)
  {
    hide BitAt, SquitterByte, FormatField, Remainder, Plus, AddressField, Explains, Isolated, Explanation,
      BeyondInterrogator, InterrogatorOf, IsResidue, NonIcao, MarkNonIcao;
    assert !DamagedSquitter(cfg, received);
    var crc := ChecksumAs(received, o.format);
    ExplanationShape(cfg, LengthOf(o.format), crc);
    assert Flip(BitsOf(received), {}) == BitsOf(received);
    ChecksumFromBits(o.fixed, received, o.format);
    AddressIsRemainder(o.fixed);
    AddressIsRemainder(received);
    AddressBelow24(received);
    OnlySquitters(o.fixed, o.format);
    if o.format == 11 {
      if BeyondInterrogator(crc) {
        BeyondNotZero(crc);
      }
      SyndromeResidue(received[..7]);
      IntactAllCall(crc);
    }
  }

  /** And every undamaged announcement does make its address known. */
  lemma CleanIsAnnounced(cfg: Config, known: set<bv32>, received: Message, o: Outcome, addr: bv32)
    requires Decodes(cfg, known, received, o) && CleanAnnouncement(received, addr)
    ensures Announces(o) && o.fixed == received && o.addr == addr
  {
    hide SquitterByte, FormatField, Syndrome, AddressField, BitsOf, Explanation, BeyondInterrogator, InterrogatorOf,
      NonIcao, MarkNonIcao;
    var format := FormatOf(received);
    ZeroCode();
    if AllZeros(received) {
      ZerosNotDamaged(cfg, received);
    }
    if format == 17 {
      RepairOfIntact(cfg, known, received, 17);
    } else {
      RepairOfRest(cfg, known, received, 11);
    }
    OnlySquitters(received, format);
    NothingFlipped(o.fixed, received);
  }

  lemma ZeroCode()
    ensures !BeyondInterrogator(0) && InterrogatorOf(0) == 0
  {
  }

  lemma NothingFlipped(fixed: Message, msg: Message)
    requires BitsOf(fixed) == Flip(BitsOf(msg), {})
    ensures fixed == msg
  {
    hide BitAt;
    assert Flip(BitsOf(msg), {}) == BitsOf(msg);
    SameBits(fixed, msg);
  }

  // ------------------------------------------------------ the score as a forecast

  // Decoding accepts these although the score of the same bytes is not positive:
  // formats 24 to 31, which are not scored, and all-call replies with a foreign
  // interrogator code whose address is not known.
  ghost predicate AcceptedUnscored(known: set<bv32>, received: Message) {
    var format := FormatOf(received);
    var crc := ChecksumAs(received, format);
    (24 <= format <= 31 && crc in known) ||
    (format == 11 && !BeyondInterrogator(crc) && InterrogatorOf(crc) != 0 && AddressField(received) !in known)
  }

  // The score is positive although decoding refuses these: squitters whose repair
  // would move them to an unknown address.
  ghost predicate ScoredButRefused(cfg: Config, known: set<bv32>, received: Message) {
    var format := FormatOf(received);
    var errors := Explanation(cfg, LengthOf(format), ChecksumAs(received, format));
    (format == 17 || format == 18) && errors.Some? &&
    AddressAfter(received, errors.value) != AddressField(received) && AddressAfter(received, errors.value) !in known
  }

  lemma AcceptedMeansRepair(cfg: Config, known: set<bv32>, received: Message, o: Outcome)
    requires Decodes(cfg, known, received, o)
    ensures o.Accepted? <==> WouldAccept(cfg, known, received)
  {
    hide Repair, BitsOf, AllZeros, FormatField, SquitterByte, Attributed, DamagedSquitter;
  }

  lemma ZerosNotDamaged(cfg: Config, received: Message)
    requires AllZeros(received)
    ensures !DamagedSquitter(cfg, received) && FormatOf(received) == 0
  {
    hide Syndrome;
  }

  lemma DamagedAccepted(cfg: Config, known: set<bv32>, received: Message)
    requires DamagedSquitter(cfg, received)
    ensures WouldAccept(cfg, known, received) && Score(cfg, known, received, LONG_MSG_BITS) > 0
    ensures !AcceptedUnscored(known, received) || FormatOf(received) == 25
    ensures !ScoredButRefused(cfg, known, received)
  {
    hide Repair, Syndrome, FormatField, SquitterByte, Explanation, AddressField, AddressAfter, BeyondInterrogator,
      InterrogatorOf, AllZeros;
    RepairOfIntact(cfg, known, AsSquitter(received), 17);
    if AllZeros(received) {
      ZerosNotDamaged(cfg, received);
    }
  }

  /** The score that picks a candidate message is positive exactly when decoding then
      accepts it, apart from the two families above; for extended squitters acceptance
      always comes with a positive score. */
  lemma ScoreForecastsDecoding(cfg: Config, known: set<bv32>, received: Message, o: Outcome)
    requires Decodes(cfg, known, received, o)
    ensures o.Accepted? && Score(cfg, known, received, LONG_MSG_BITS) <= 0 <==>
      !DamagedSquitter(cfg, received) && !AllZeros(received) && AcceptedUnscored(known, received)
    ensures o.Rejected? && Score(cfg, known, received, LONG_MSG_BITS) > 0 <==>
      !AllZeros(received) && ScoredButRefused(cfg, known, received)
    ensures o.Accepted? && (o.format == 17 || o.format == 18) ==> Score(cfg, known, received, LONG_MSG_BITS) > 0
  {
    hide ScoreAs, Repair, AcceptedUnscored, ScoredButRefused, AllZeros, AsSquitter, DamagedSquitter, FormatField;
    AcceptedMeansRepair(cfg, known, received, o);
    FormatBounded(received[0]);
    if DamagedSquitter(cfg, received) {
      DamagedAccepted(cfg, known, received);
    } else if !AllZeros(received) {
      ForecastAsFormat(cfg, known, received);
      SquitterNotUnscored(known, received);
    }
  }

  lemma SquitterNotUnscored(known: set<bv32>, received: Message)
    ensures AcceptedUnscored(known, received) ==> FormatOf(received) != 17 && FormatOf(received) != 18
  {
    hide Syndrome, ChecksumAs, BeyondInterrogator, InterrogatorOf, AddressField;
  }

  lemma ForecastAsFormat(cfg: Config, known: set<bv32>, msg: Message)
    ensures var format := FormatOf(msg);
      (Repair(cfg, known, msg, format).Some? && ScoreAs(cfg, known, msg, format) <= 0 <==>
        AcceptedUnscored(known, msg)) &&
      (Repair(cfg, known, msg, format) == None && ScoreAs(cfg, known, msg, format) > 0 <==>
        ScoredButRefused(cfg, known, msg))
  {
    hide Syndrome, FormatField, Explanation, AddressField, AddressAfter, BeyondInterrogator, InterrogatorOf,
      PatternSyndrome, ChecksumAs;
    FormatBounded(msg[0]);
    var format := FormatOf(msg);
    ExplanationShape(cfg, LengthOf(format), ChecksumAs(msg, format));
    if format == 11 {
      ForecastAllCall(cfg, known, msg);
    } else if format == 17 || format == 18 {
      ForecastSquitter(cfg, known, msg, format);
    }
  }

  lemma ForecastAllCall(cfg: Config, known: set<bv32>, msg: Message)
    requires FormatOf(msg) == 11
    ensures Repair(cfg, known, msg, 11).Some? && ScoreAs(cfg, known, msg, 11) <= 0 <==> AcceptedUnscored(known, msg)
    ensures Repair(cfg, known, msg, 11) == None ==> ScoreAs(cfg, known, msg, 11) <= 0
  {
    hide Syndrome, FormatField, Explanation, AddressField, AddressAfter, BeyondInterrogator, InterrogatorOf,
      PatternSyndrome, ChecksumAs;
  }

  lemma ForecastSquitter(cfg: Config, known: set<bv32>, msg: Message, format: nat)
    requires FormatOf(msg) == format && (format == 17 || format == 18)
    ensures Repair(cfg, known, msg, format).Some? ==> ScoreAs(cfg, known, msg, format) > 0
    ensures Repair(cfg, known, msg, format) == None && ScoreAs(cfg, known, msg, format) > 0 <==>
      ScoredButRefused(cfg, known, msg)
  {
    hide Syndrome, FormatField, Explanation, AddressField, AddressAfter, BeyondInterrogator, InterrogatorOf,
      PatternSyndrome, ChecksumAs;
    ExplanationShape(cfg, LengthOf(format), ChecksumAs(msg, format));
    var errors := Explanation(cfg, LengthOf(format), ChecksumAs(msg, format));
    if errors.Some? {
      PositiveScore(|errors.value|);
    }
  }

  lemma PositiveScore(n: nat)
    requires n <= 2
    ensures 1800 / (n + 1) > 0 && 1400 / (n + 1) > 0
  {
  }

  // ------------------------------------------------------------------ whole runs

  // orders[k] is the ring before message k, outcomes[k] what became of message k.
  ghost predicate Run(cfg: Config, orders: seq<seq<bv32>>, received: seq<Message>, outcomes: seq<Outcome>) {
    |orders| == |received| + 1 == |outcomes| + 1 &&
    (forall k :: 0 <= k < |orders| ==> |orders[k]| == RING_SIZE) && Known(orders[0]) == {} &&
    forall k :: 0 <= k < |received| ==> Step(cfg, orders[k], received[k], outcomes[k], orders[k + 1])
  }

  ghost predicate Step(cfg: Config, order: seq<bv32>, received: Message, o: Outcome, next: seq<bv32>) {
    |order| == RING_SIZE && Decodes(cfg, Known(order), received, o) &&
    next == if Announces(o) then Announce(order, o.addr) else order
  }

  /** Every address known at any point of a run fits in 24 bits and was announced by an
      earlier message that arrived without errors. */
  lemma {:induction false} KnownWasAnnounced(cfg: Config, orders: seq<seq<bv32>>, received: seq<Message>,
                                             outcomes: seq<Outcome>, k: nat, addr: bv32)
    requires Run(cfg, orders, received, outcomes) && k < |orders| && addr in Known(orders[k])
    ensures IsResidue(addr)
    ensures exists j :: 0 <= j < k && CleanAnnouncement(received[j], addr)
  {
    hide Decodes, CleanAnnouncement, Known, Announce, IsResidue;
    if k > 0 {
      assert Step(cfg, orders[k - 1], received[k - 1], outcomes[k - 1], orders[k]);
      if addr in Known(orders[k - 1]) {
        KnownWasAnnounced(cfg, orders, received, outcomes, k - 1, addr);
      } else {
        AnnounceAdds(orders[k - 1], outcomes[k - 1].addr);
        AnnouncedCleanly(cfg, Known(orders[k - 1]), received[k - 1], outcomes[k - 1]);
      }
    }
  }

  /** Over a whole run: an undamaged announcement of an address other than zero makes it known
      to the message behind it, if it was not before. */
  lemma AnnouncedIsKnown(cfg: Config, orders: seq<seq<bv32>>, received: seq<Message>, outcomes: seq<Outcome>, k: nat,
                         addr: bv32)
    requires Run(cfg, orders, received, outcomes) && k < |received|
    requires CleanAnnouncement(received[k], addr) && addr != 0
    ensures addr in Known(orders[k + 1])
  {
    hide Decodes, CleanAnnouncement, Known, Announce, Announces, AddressField;
    assert Step(cfg, orders[k], received[k], outcomes[k], orders[k + 1]);
    CleanIsAnnounced(cfg, Known(orders[k]), received[k], outcomes[k], addr);
    AnnouncedCleanly(cfg, Known(orders[k]), received[k], outcomes[k]);
    NotReserved(addr);
    AnnounceAdds(orders[k], addr);
  }

  lemma NotReserved(addr: bv32)
    requires IsResidue(addr) && addr != 0
    ensures !Reserved(addr)
  {
  }

  // Where in the ring an address is, some messages after it was first announced.
  lemma {:induction false} PlaceInRing(cfg: Config, orders: seq<seq<bv32>>, received: seq<Message>,
                                       outcomes: seq<Outcome>, k: nat, l: nat, addr: bv32) returns (p: nat)
    requires Run(cfg, orders, received, outcomes) && k < l < |orders| && l <= k + 4096
    requires CleanAnnouncement(received[k], addr) && addr != 0 && addr !in Known(orders[k])
    ensures 4096 - (l - k) <= p < 4096 && |orders[l]| == 4096 && orders[l][p] == addr && !Reserved(addr)
  {
    hide Decodes, CleanAnnouncement, Announces, AddressField, IsResidue;
    assert Step(cfg, orders[l - 1], received[l - 1], outcomes[l - 1], orders[l]);
    if l == k + 1 {
      CleanIsAnnounced(cfg, Known(orders[k]), received[k], outcomes[k], addr);
      AnnouncedCleanly(cfg, Known(orders[k]), received[k], outcomes[k]);
      NotReserved(addr);
      p := 4095;
    } else {
      p := PlaceInRing(cfg, orders, received, outcomes, k, l - 1, addr);
      if orders[l] != orders[l - 1] {
        p := p - 1;
      }
    }
  }

  /** Over a whole run: an address that is announced without errors for the first time is known
      from then on through the next 4096 messages at least, whatever they are. */
  lemma AnnouncedStays(cfg: Config, orders: seq<seq<bv32>>, received: seq<Message>, outcomes: seq<Outcome>, k: nat,
                       l: nat, addr: bv32)
    requires Run(cfg, orders, received, outcomes) && k < l < |orders| && l <= k + 4096
    requires CleanAnnouncement(received[k], addr) && addr != 0 && addr !in Known(orders[k])
    ensures addr in Known(orders[l])
  {
    hide Run, CleanAnnouncement;
    var p := PlaceInRing(cfg, orders, received, outcomes, k, l, addr);
  }

  /** A squitter whose repair changes its address is accepted only under an address
      that an earlier message announced without errors. */
  lemma MovedAddressWasAnnounced(cfg: Config, orders: seq<seq<bv32>>, received: seq<Message>,
                                 outcomes: seq<Outcome>, k: nat)
    requires Run(cfg, orders, received, outcomes) && k < |received|
    requires outcomes[k].Accepted? && (outcomes[k].format == 17 || outcomes[k].format == 18)
    requires AddressField(outcomes[k].fixed) != AddressField(received[k])
    ensures exists j :: 0 <= j < k && CleanAnnouncement(received[j], AddressField(outcomes[k].fixed))
  {
    hide CleanAnnouncement, Known, Announces, AddressField, Decodes;
    assert Step(cfg, orders[k], received[k], outcomes[k], orders[k + 1]);
    AcceptedSquitter(cfg, Known(orders[k]), received[k], outcomes[k]);
    KnownWasAnnounced(cfg, orders, received, outcomes, k, AddressField(outcomes[k].fixed));
  }

  /** A message that carries its address only in its parity is accepted only when that
      address was announced before. */
  lemma ParityAddressWasAnnounced(cfg: Config, orders: seq<seq<bv32>>, received: seq<Message>,
                                  outcomes: seq<Outcome>, k: nat)
    requires Run(cfg, orders, received, outcomes) && k < |received|
    requires outcomes[k].Accepted? && AddressParity(outcomes[k].format)
    ensures outcomes[k].addr == ChecksumAs(received[k], outcomes[k].format)
    ensures exists j :: 0 <= j < k && CleanAnnouncement(received[j], outcomes[k].addr)
  {
    hide CleanAnnouncement, Known, Announces, AddressField, BitAt, Syndrome, SquitterByte, FormatField, NonIcao,
        Explanation,
      BeyondInterrogator;
    assert Step(cfg, orders[k], received[k], outcomes[k], orders[k + 1]);
    var o := outcomes[k];
    assert Flip(BitsOf(received[k]), {}) == BitsOf(received[k]);
    ChecksumFromBits(o.fixed, received[k], o.format);
    KnownWasAnnounced(cfg, orders, received, outcomes, k, o.addr);
  }

  /** Over a whole run: an address that is marked as none of ICAO's is never known, neither
      before nor after its message, and still has the address field in its 24 bits. */
  lemma MarkedNeverKnown(cfg: Config, orders: seq<seq<bv32>>, received: seq<Message>,
                         outcomes: seq<Outcome>, j: nat, k: nat)
    requires Run(cfg, orders, received, outcomes) && j < |orders| && k < |received|
    requires outcomes[k].Accepted? && NonIcao(outcomes[k].fixed, outcomes[k].format)
    ensures outcomes[k].addr !in Known(orders[j])
    ensures Low24(outcomes[k].addr) == AddressField(outcomes[k].fixed)
  {
    hide Step, NonIcao, AddressField, Known, MarkNonIcao, IsResidue, Low24, DamagedSquitter, Repair;
    var o := outcomes[k];
    assert Step(cfg, orders[k], received[k], o, orders[k + 1]);
    MarkedAddress(cfg, orders[k], received[k], o, orders[k + 1]);
    if o.addr in Known(orders[j]) {
      KnownWasAnnounced(cfg, orders, received, outcomes, j, o.addr);
    }
  }

  lemma MarkedAddress(cfg: Config, order: seq<bv32>, received: Message, o: Outcome, next: seq<bv32>)
    requires Step(cfg, order, received, o, next) && o.Accepted? && NonIcao(o.fixed, o.format)
    ensures !IsResidue(o.addr) && Low24(o.addr) == AddressField(o.fixed)
  {
    hide NonIcao, AddressField, Known, MarkNonIcao, IsResidue, Low24, DamagedSquitter, Repair, BitsOf, AllZeros;
    OnlySquitters(o.fixed, o.format);
    AddressParityFormats(o.format);
    MarkKeepsBits(AddressField(o.fixed));
    AddressBelow24(o.fixed);
    Low24OfResidue(AddressField(o.fixed));
  }
}
