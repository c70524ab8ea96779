/** How the scores of mode_s.c rank messages, which decides between the phases of a message:
    known addresses before unknown ones, and fewer corrections before more. */
module ScoreOrder {
  import opened Basics
  import opened Polynomial
  import opened MessageBits
  import opened Checksum
  import opened ErrorTable
  import opened BridgeParity
  import opened Correction
  import opened ModeSFields
  import opened ModeS
  import opened AddressSafety
  import opened ForecastFailures

  // The address that a message gets if it is repaired: its parity, or its address field.
  ghost function RepairedAddress(cfg: Config, msg: Message): bv32 {
    var format := FormatOf(msg);
    var errors := Explanation(cfg, LengthOf(format), ChecksumAs(msg, format));
    if DamagedSquitter(cfg, msg) then AddressField(msg)
    else if format == 17 || format == 18 || (format == 11 && BeyondInterrogator(ChecksumAs(msg, 11))) then
      AddressAfter(msg, if errors.Some? then errors.value else {})
    else if format == 11 then AddressField(msg)
    else ChecksumAs(msg, format)
  }

  /** Whatever the message: if it scores, it scores strictly more when its address is known
      than when it is not. */
  lemma KnownRanksHigher(cfg: Config, known: set<bv32>, others: set<bv32>, msg: Message)
    requires RepairedAddress(cfg, msg) in known && RepairedAddress(cfg, msg) !in others
    ensures Score(cfg, known, msg, 112) > 0 || Score(cfg, others, msg, 112) > 0 ==>
      Score(cfg, known, msg, 112) > Score(cfg, others, msg, 112)
  {
    hide Syndrome, AddressField, Explanation, AddressAfter, FormatField, BeyondInterrogator, InterrogatorOf, AllZeros,
      DamagedSquitter, ChecksumAs;
    var format := FormatOf(msg);
    var n, crc := LengthOf(format), ChecksumAs(msg, format);
    FormatBounded(msg[0]);
    if Explanation(cfg, n, crc).Some? {
      ExplanationShape(cfg, n, crc);
    }
  }

  // A squitter that is not taken for one with a damaged format, and the errors that its
  // repair undoes.
  ghost predicate RepairedWith(cfg: Config, msg: Message, errors: set<nat>) {
    && (FormatOf(msg) == 17 || FormatOf(msg) == 18)
    && Explanation(cfg, 112, ChecksumAs(msg, FormatOf(msg))) == Some(errors)
  }

  // The six scores of squitters.
  lemma SquitterScores(cfg: Config, known: set<bv32>, msg: Message, errors: set<nat>)
    requires RepairedWith(cfg, msg, errors)
    ensures |errors| <= 2
    ensures AddressAfter(msg, errors) in known ==>
      Score(cfg, known, msg, 112) == if |errors| == 0 then 1800 else if |errors| == 1 then 900 else 600
    ensures AddressAfter(msg, errors) !in known ==>
      Score(cfg, known, msg, 112) == if |errors| == 0 then 1400 else if |errors| == 1 then 700 else 466
  {
    hide Syndrome, AddressField, Explanation, AddressAfter, FormatField, AllZeros, ChecksumAs;
    ExplanationShape(cfg, 112, ChecksumAs(msg, FormatOf(msg)));
    NotZeros(msg);
  }

  /** Of two squitters the one that needs fewer corrections scores strictly more, whichever of
      their addresses are known. */
  lemma FewerErrorsRankHigher(cfg: Config, known: set<bv32>, msg: Message, errors: set<nat>, other: Message,
                              more: set<nat>)
    requires RepairedWith(cfg, msg, errors) && RepairedWith(cfg, other, more) && |errors| < |more|
    ensures Score(cfg, known, msg, 112) > Score(cfg, known, other, 112) > 0
  {
    hide Score, RepairedWith, AddressAfter;
    SquitterScores(cfg, known, msg, errors);
    SquitterScores(cfg, known, other, more);
  }

  lemma NotZeros(msg: Message)
    ensures FormatOf(msg) != 0 ==> !AllZeros(msg)
  {
  }

  // ------------------------------------------------------------------ one of each kind

  // An intact all-call reply to no interrogator, and the same with a bit of its address
  // inverted.
  function AllCallReply(): Message {
    WithSyndrome([0x58, 0x12, 0x34, 0x56], 0) + [0, 0, 0, 0, 0, 0, 0]
  }

  // A surveillance altitude reply whose parity field is overlaid with an address.
  function AltitudeReply(addr: bv32): Message {
    WithSyndrome([0x20, 0, 0, 0], addr) + [0, 0, 0, 0, 0, 0, 0]
  }

  // An intact squitter with its format field damaged from 17 to 25.
  function DamagedFormat(): Message {
    Squitter()[0 := 0xc8]
  }

  lemma Formats()
    ensures FormatField(0x20) == 4 && FormatField(0xc8) == 25 && SquitterByte(0xc8) == 0x88
    ensures !BeyondInterrogator(0) && InterrogatorOf(0) == 0
  {
  }

  /** Intact squitters: 1800 and 1400; with one correction: 900 and 700. */
  lemma SquitterValues(cfg: Config)
    requires cfg.nfixCrc == 1
    ensures var addr := AddressField(Squitter());
      && Score(cfg, {addr}, Squitter(), 112) == 1800 && Score(cfg, {}, Squitter(), 112) == 1400
      && Score(cfg, {addr}, Misaddressed(), 112) == 900 && Score(cfg, {}, Misaddressed(), 112) == 700
  {
    hide Score, Squitter, Misaddressed, Syndrome, AddressField, AddressAfter, Explanation, PatternSyndrome, FormatField,
      RepairedWith;
    IntactSquitter(cfg);
    NothingToFix(Squitter());
    SquitterScores(cfg, {}, Squitter(), {});
    SquitterScores(cfg, {AddressField(Squitter())}, Squitter(), {});
    DamagedAddress(cfg);
    Damage();
    SquitterScores(cfg, {}, Misaddressed(), {8});
    SquitterScores(cfg, {AddressField(Squitter())}, Misaddressed(), {8});
  }

  lemma IntactSquitter(cfg: Config)
    ensures RepairedWith(cfg, Squitter(), {})
  {
    hide WithSyndrome, Syndrome, FormatField, IsResidue;
    SquitterFormatField();
    SyndromeChosen([0x88, 0x12, 0x34, 0x56, 0, 0, 0, 0, 0, 0, 0], 0);
    HeadKept([0x88, 0x12, 0x34, 0x56, 0, 0, 0, 0, 0, 0, 0], 0);
    SyndromeOfLong(Squitter(), 17);
  }

  lemma DamagedAddress(cfg: Config)
    requires cfg.nfixCrc == 1
    ensures RepairedWith(cfg, Misaddressed(), {8})
  {
    hide Squitter, Misaddressed, Syndrome, FormatField, PatternSyndrome, Explanation;
    Damage();
    OtherAddress();
    SquitterFormatField();
    SyndromeOfLong(Misaddressed(), 17);
    OnlyExplanation(cfg, 8);
  }

  /** A squitter whose format was damaged scores as one with one correction. */
  lemma DamagedFormatValues(cfg: Config)
    requires cfg.fixDF && cfg.nfixCrc == 1
    ensures var addr := AddressField(DamagedFormat());
      Score(cfg, {addr}, DamagedFormat(), 112) == 900 && Score(cfg, {}, DamagedFormat(), 112) == 700
  {
    hide Squitter, Syndrome, AddressField, Explanation, FormatField, SquitterByte;
    Formats();
    SquitterFirst();
    assert AsSquitter(DamagedFormat()) == Squitter();
    IntactSquitter(cfg);
    SyndromeOfLong(Squitter(), 17);
  }

  lemma SquitterFirst()
    ensures Squitter()[0] == 0x88 && Syndrome(Squitter()) == 0
  {
    hide WithSyndrome, Syndrome, IsResidue;
    SquitterFormatField();
    SyndromeChosen([0x88, 0x12, 0x34, 0x56, 0, 0, 0, 0, 0, 0, 0], 0);
    HeadKept([0x88, 0x12, 0x34, 0x56, 0, 0, 0, 0, 0, 0, 0], 0);
  }

  /** All-call replies: 1600 and 750 to no interrogator, 1000 or nothing to another one. */
  lemma AllCallValues(cfg: Config)
    ensures var addr := AddressField(AllCallReply());
      Score(cfg, {addr}, AllCallReply(), 112) == 1600 && Score(cfg, {}, AllCallReply(), 112) == 750
    ensures var addr := AddressField(ForeignReply());
      Score(cfg, {addr}, ForeignReply(), 112) == 1000 && Score(cfg, {}, ForeignReply(), 112) == -1
  {
    hide Syndrome, WithSyndrome, IsResidue, FormatField, AddressField, BeyondInterrogator, InterrogatorOf, Explanation;
    OneIsForeign();
    Formats();
    SquitterFormatField();
    ReplyShape([0x58, 0x12, 0x34, 0x56], 0, AllCallReply());
    ReplyShape([0x58, 0x12, 0x34, 0x56], 1, ForeignReply());
  }

  // A short reply made by choosing its parity.
  lemma ReplyShape(head: seq<bv8>, syndrome: bv32, msg: Message)
    requires |head| == 4 && IsResidue(syndrome) && msg == WithSyndrome(head, syndrome) + [0, 0, 0, 0, 0, 0, 0]
    ensures msg[0] == head[0] && Syndrome(msg[..7]) == syndrome && (head[0] != 0 ==> !AllZeros(msg))
  {
    hide Syndrome, WithSyndrome, IsResidue;
    SyndromeChosen(head, syndrome);
    HeadKept(head, syndrome);
    assert msg[..7] == WithSyndrome(head, syndrome);
  }

  /** A surveillance reply scores only with a known address, and an ELM message never. */
  lemma ReplyValues(cfg: Config, addr: bv32)
    requires IsResidue(addr)
    ensures Score(cfg, {addr}, AltitudeReply(addr), 112) == 1000 && Score(cfg, {}, AltitudeReply(addr), 112) == -1
    ensures Score(cfg, {addr}, LongReply(addr), 112) == -2
  {
    hide Syndrome, WithSyndrome, IsResidue, FormatField, AddressField, BeyondInterrogator, InterrogatorOf, Explanation;
    ReplyShape([0x20, 0, 0, 0], addr, AltitudeReply(addr));
    HeadKept([0xc0, 0, 0, 0, 0, 0, 0, 0, 0, 0, 0], addr);
    OneIsForeign();
    Formats();
  }

  /** What is too short for its format does not score. */
  lemma ShortIsRefused(cfg: Config, known: set<bv32>, msg: Message, validbits: nat)
    requires validbits < 56 || (validbits < 112 && FormatOf(msg) >= 16)
    ensures Score(cfg, known, msg, validbits) == -2
  {
    hide AllZeros, FormatField;
  }

  // An all-call reply with a damaged address.
  function MisaddressedReply(): Message {
    FlipBit(AllCallReply(), 8)
  }

  // A short message with bit 8 inverted.
  lemma ShortDamage(msg: Message)
    requires Syndrome(msg[..7]) == 0
    ensures FlipBit(msg, 8)[0] == msg[0] && Syndrome(FlipBit(msg, 8)[..7]) == PatternSyndrome(56, {8})
  {
    hide PatternSyndrome, Flip, Mask, XorByte, BitAt, Remainder, Plus;
    assert FlipBit(msg, 8)[..7] == FlipBit(msg[..7], 8);
    FlipBitFlips(msg[..7], 8);
    FlipAddsPatternSyndrome(BitsOf(msg[..7]), {8});
    PlusZero(PatternSyndrome(56, {8}));
  }

  lemma BeyondIn8()
    ensures PatternSyndrome(56, {8}) == 0xea04ad && BeyondInterrogator(0xea04ad)
  {
    hide PatternSyndrome, XToThe;
    SyndromeOfOne(56, 8);
    EntryIsMonomial(64);
  }

  // Its syndrome is that of the inverted bit, and inverting it again is the only repair.
  lemma ReplyDamage(cfg: Config)
    requires cfg.nfixCrc == 1
    ensures FormatOf(MisaddressedReply()) == 11 && !AllZeros(MisaddressedReply())
    ensures BeyondInterrogator(ChecksumAs(MisaddressedReply(), 11))
    ensures Explanation(cfg, 56, ChecksumAs(MisaddressedReply(), 11)) == Some({8})
  {
    hide Syndrome, FormatField, BeyondInterrogator, PatternSyndrome, FlipBit, WithSyndrome, IsResidue;
    SquitterFormatField();
    OneIsForeign();
    ReplyShape([0x58, 0x12, 0x34, 0x56], 0, AllCallReply());
    ShortDamage(AllCallReply());
    BeyondIn8();
    SingleExplained(56, 8);
    assert MisaddressedReply()[0] == 0x58;
  }

  /** An all-call reply with one correction scores only when its address is known. */
  lemma RepairedAllCallValues(cfg: Config)
    requires cfg.nfixCrc == 1
    ensures var addr := AddressAfter(MisaddressedReply(), {8});
      Score(cfg, {addr}, MisaddressedReply(), 112) == 800 && Score(cfg, {}, MisaddressedReply(), 112) == -1
  {
    hide ChecksumAs, MisaddressedReply, FormatField, AddressField, AddressAfter, BeyondInterrogator, Explanation,
      AllZeros;
    ReplyDamage(cfg);
  }
}
