/** Messages for which the score and the decoding of mode_s.c disagree. They are made by
    choosing the parity bytes behind some bytes so that a given syndrome results. */
module ForecastFailures {
  import opened Basics
  import opened Polynomial
  import opened MessageBits
  import opened Checksum
  import opened ErrorTable
  import opened Correction
  import opened ModeSFields
  import opened ModeS
  import opened ModeSDecode
  import opened AddressSafety

  function Top(r: bv32): bv8 {
    ((r >> 16) & 0xff) as bv8
  }

  function Middle(r: bv32): bv8 {
    ((r >> 8) & 0xff) as bv8
  }

  function Bottom(r: bv32): bv8 {
    (r & 0xff) as bv8
  }

  // The bytes of head and parity bytes behind them.
  function WithSyndrome(head: seq<bv8>, syndrome: bv32): (msg: seq<bv8>)
    ensures |msg| == |head| + 3
  {
    var parity := Plus(Register(head), syndrome);
    head + [Top(parity), Middle(parity), Bottom(parity)]
  }

  lemma BytesOfParity(rem: bv32, s: bv32)
    requires IsResidue(rem) && IsResidue(s)
    ensures AddThreeBytes(rem, Top(Plus(rem, s)), Middle(Plus(rem, s)), Bottom(Plus(rem, s))) == s
  {
  }

  /** Every syndrome occurs behind every head. */
  lemma SyndromeChosen(head: seq<bv8>, syndrome: bv32)
    requires IsResidue(syndrome)
    ensures Syndrome(WithSyndrome(head, syndrome)) == syndrome
  {
    hide Syndrome, Register, AddThreeBytes, Plus, IsResidue, Top, Middle, Bottom;
    var parity := Plus(Register(head), syndrome);
    LastThreeBytes(head, Top(parity), Middle(parity), Bottom(parity));
    RegisterStep(head, 0);
    BytesOfParity(Register(head), syndrome);
  }

  // ------------------------------------------------- accepted without a score

  // An all-call reply to the interrogator with code 1.
  function ForeignReply(): Message {
    WithSyndrome([0x58, 0x12, 0x34, 0x56], 1) + [0, 0, 0, 0, 0, 0, 0]
  }

  // An ELM message whose parity field is overlaid with an address.
  function LongReply(addr: bv32): Message {
    WithSyndrome([0xc0, 0, 0, 0, 0, 0, 0, 0, 0, 0, 0], addr)
  }

  lemma OneIsForeign()
    ensures IsResidue(1) && !BeyondInterrogator(1) && InterrogatorOf(1) != 0
    ensures FormatField(0x58) == 11 && FormatField(0xc0) == 24
  {
  }

  lemma BothUnscored(cfg: Config, addr: bv32)
    requires IsResidue(addr)
    ensures AcceptedUnscored({}, ForeignReply()) && !AllZeros(ForeignReply()) && !DamagedSquitter(cfg, ForeignReply())
    ensures AcceptedUnscored({addr}, LongReply(addr)) && !AllZeros(LongReply(addr)) &&
        !DamagedSquitter(cfg, LongReply(addr))
  {
    hide Syndrome, WithSyndrome, IsResidue, FormatField, BeyondInterrogator, InterrogatorOf, AddressField, AsSquitter;
    OneIsForeign();
    var reply, long := ForeignReply(), LongReply(addr);
    SyndromeChosen([0x58, 0x12, 0x34, 0x56], 1);
    assert reply[..7] == WithSyndrome([0x58, 0x12, 0x34, 0x56], 1);
    SyndromeChosen([0xc0, 0, 0, 0, 0, 0, 0, 0, 0, 0, 0], addr);
    assert long[..14] == long;
    HeadKept([0x58, 0x12, 0x34, 0x56], 1);
    HeadKept([0xc0, 0, 0, 0, 0, 0, 0, 0, 0, 0, 0], addr);
  }

  /** Whatever decoding makes of the two replies, it accepts them, although their score is
      not positive. */
  lemma AcceptedWithoutScore(cfg: Config, addr: bv32, reply: Outcome, long: Outcome)
    requires IsResidue(addr)
    requires Decodes(cfg, {}, ForeignReply(), reply) && Decodes(cfg, {addr}, LongReply(addr), long)
    ensures reply.Accepted? && Score(cfg, {}, ForeignReply(), LONG_MSG_BITS) <= 0
    ensures long.Accepted? && Score(cfg, {addr}, LongReply(addr), LONG_MSG_BITS) <= 0
  {
    hide Decodes, Score, AcceptedUnscored, ForeignReply, LongReply, DamagedSquitter, AllZeros;
    BothUnscored(cfg, addr);
    ScoreForecastsDecoding(cfg, {}, ForeignReply(), reply);
    ScoreForecastsDecoding(cfg, {addr}, LongReply(addr), long);
  }

  lemma HeadKept(head: seq<bv8>, syndrome: bv32)
    ensures WithSyndrome(head, syndrome)[..|head|] == head
  {
  }

  // ------------------------------------------------------- scored and then refused

  // An intact DF17 message, and the same with the first bit of its address inverted.
  function Squitter(): Message {
    WithSyndrome([0x88, 0x12, 0x34, 0x56, 0, 0, 0, 0, 0, 0, 0], 0)
  }

  function Misaddressed(): Message {
    FlipBit(Squitter(), 8)
  }

  lemma SquitterFormatField()
    ensures IsResidue(0) && FormatField(0x88) == 17 && AddressWeight(8) != 0
  {
  }

  // The inverted bit explains the syndrome, and undoing it gives the sender's address.
  lemma Damage()
    ensures Syndrome(Misaddressed()) == PatternSyndrome(LONG_MSG_BITS, {8})
    ensures AddressAfter(Misaddressed(), {8}) == AddressField(Squitter())
  {
    hide WithSyndrome, IsResidue, AddressField, PatternSyndrome, BitAt, FlipBit, Flip, Remainder;
    var clean := Squitter();
    SquitterFormatField();
    SyndromeChosen([0x88, 0x12, 0x34, 0x56, 0, 0, 0, 0, 0, 0, 0], 0);
    FlipBitFlips(clean, 8);
    FlipAddsPatternSyndrome(BitsOf(clean), {8});
    PlusZero(PatternSyndrome(LONG_MSG_BITS, {8}));
    FlipTwice(BitsOf(clean), {8});
    AddressIsRemainder(clean);
  }

  lemma OtherAddress()
    ensures FormatOf(Misaddressed()) == 17 && Misaddressed()[0] == 0x88
    ensures AddressField(Squitter()) != AddressField(Misaddressed())
  {
    hide WithSyndrome, FormatField, AddressField, FlipBit, AddressWeight, Plus;
    SquitterFormatField();
    HeadKept([0x88, 0x12, 0x34, 0x56, 0, 0, 0, 0, 0, 0, 0], 0);
    FlipBitBytes(Squitter(), 8);
    FlipBitAddress(Squitter(), 8);
    NotSame(AddressField(Squitter()), AddressWeight(8));
  }

  lemma MisaddressedIsRefused(cfg: Config)
    requires cfg.nfixCrc == 1
    ensures ScoredButRefused(cfg, {}, Misaddressed()) && !AllZeros(Misaddressed())
  {
    hide Syndrome, Squitter, Misaddressed, FormatField, AddressField, AddressAfter, Explanation, PatternSyndrome;
    Damage();
    OtherAddress();
    SyndromeOfLong(Misaddressed(), 17);
    OnlyExplanation(cfg, 8);
  }

  /** The damaged message can be repaired, which the score counts for it, but the repaired
      address is not known, so decoding refuses it. */
  lemma ScoredThenRefused(cfg: Config, o: Outcome)
    requires cfg.nfixCrc == 1 && Decodes(cfg, {}, Misaddressed(), o)
    ensures o.Rejected? && Score(cfg, {}, Misaddressed(), LONG_MSG_BITS) > 0
  {
    hide Decodes, Score, ScoredButRefused, Misaddressed, AllZeros;
    MisaddressedIsRefused(cfg);
    ScoreForecastsDecoding(cfg, {}, Misaddressed(), o);
  }

  lemma NotSame(a: bv32, w: bv32)
    requires w != 0
    ensures Plus(a, w) != a
  {
  }

  lemma OnlyExplanation(cfg: Config, i: nat)
    requires cfg.nfixCrc == 1 && FIRST_BIT <= i < LONG_MSG_BITS
    ensures Explanation(cfg, LONG_MSG_BITS, PatternSyndrome(LONG_MSG_BITS, {i})) == Some({i})
  {
    hide PatternSyndrome;
    SingleNotZero(LONG_MSG_BITS, i);
    SingleExplained(LONG_MSG_BITS, i);
  }
}
