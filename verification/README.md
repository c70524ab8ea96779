# Verified model of the readsb bridge

This project models, in Dafny, the stateful and arithmetic cores of an ADS-B receiver: the
vendored readsb decoder and the bridge code that feeds it with IQ samples. Each module follows
one part of the program; its methods have the loops and the updates in place of the C and C++
code and are proved against specifications that do not mention them.

**Mode S checksum and error correction** (`Polynomial`, `MessageBits`, `Checksum`,
`BridgeParity`, `Patterns`, `ErrorTable`, `TableOps`, `CollisionFlags`, `PrepareTable`,
`SyndromeParity`, `Correction`, `FewErrors`, `TwoBitRepair`). The checksum of crc.c, the
literal table of the bridge and the remainder of a polynomial over GF(2) are one linear
function. The error table, built by recursive enumeration, sorting, removal of duplicates,
collision flags and compaction, is characterised by an if-and-only-if over all error patterns,
from which the soundness of the correction follows; with one-bit correction, two to four errors
are always noticed. The parity is the one of section 3.1.2.3.3 of ICAO Annex 10 Volume IV.

**Validation of messages and addresses** (`ModeSFields`, `ModeS`, `ModeSDecode`,
`AddressSafety`, `ForecastFailures`, `ScoreOrder`, with the address ring of the bridge in
`AddressRing` and the hash filter of readsb in `ProbeTable` and `IcaoFilter`). Which messages
are accepted, what is repaired, which address they get, and, over whole runs, where every known
address came from.

**Compact Position Reporting** (`LongitudeZones`, `Cpr`, `CprSurface`, `CprRelative`,
`GlobalPosition`). Exact-real versions of the airborne, surface and relative decoders of
section A.1.7 of RTCA DO-260B, with an encoder as their partner, and the bridge's own decoder
compared with them.

**Trace storage** (`TraceStore`, `TraceReassembly`, `TraceCodec`, `TraceCache`, `StateBlob`,
`BlobWriter`, `BlobGrowth`, `ByteValues`). A trace is a list of compressed chunks and a live
array with one buffered position behind it. Packing, resizing and maintenance never change the
trace but for expired points, reassembling gives suffixes, saving and loading is a round trip,
and the cache of printed points equals a fresh print.

**Sample stream and demodulator** (`IqStream`, `SampleStream`, `ReadsbStream`, `Slicer`,
`Demodulator`, `Modulator`, `SquitterSignal`, `SecondCall`). The samples do not depend on how
bytes are cut into calls, no window between two calls is missed, and the unrolled five-phase
slicer is a plain loop over bit positions.

**Tables** (`AircraftTable`, `AircraftStates`, `ApiIndex`, `GlobeSquares`, `GlobeLists`,
`CraftArrayLock`, with `AddrHash` and `Basics`). The quick cache, slot allocator and hash
chains of aircraft.c, the indexes of api.c, and the lists of aircraft of globe_index.c with the
interleavings of their lock.

## Findings

- A score does not forecast decoding in all cases: `AddressSafety.ScoreForecastsDecoding` gives
  the two families of messages where they part, exactly, and `ForecastFailures` a message of
  each.
- `decode_global_position` lacks the check of cpr.c for latitudes beyond a pole:
  `GlobalPosition.BridgeMissesThePoleCheck` has the input, and the contract of
  `DecodeGlobalPosition` says that this is the only difference in what is answered. The
  longitude -180 comes out as 180.
- `save_blob` sizes its output buffer for the first buffer and keeps that size when the buffer
  grows for a large aircraft. If such a frame does not compress to that size the save fails and
  its file is removed: `BlobWriter.SaveBlob` says exactly when, `BlobWriter.WithoutGrowth` what
  is sufficient, and `BlobGrowth.GrowthCanFail` that no lossless compressor rules it out. The
  next save starts with the larger size.
- In the mode with the readsb demodulator the timestamp handed over is that of the first new
  sample, although the buffer starts with the kept tail. All messages of a call are late by the
  length of the tail; `ReadsbStream` states by how much and when the time is right, and
  `SecondCall.LateMessage` is a run in which the time of an accepted reply is wrong.
- Once an aircraft has not been seen for a minute `checkTraceCache` returns early, and until
  the cache is released `generateTraceJson` sends it as it is. `RecentTraceJson` says exactly
  when the points sent are still the recent ones, and `TraceCache.StalePrint` is a run in which
  they are not.
- `quickGet` takes an empty place of the quick cache for one that holds the address 0xffffffff.
  For that address `aircraftGet` then returns the bytes 0xff that `quickResize` left in the
  pointer, or null although an aircraft with the address is in its chain, and `aircraftCreate`
  adds a second one. The contracts of `AircraftGet` and `AircraftCreate` say exactly when, and
  `AircraftTable.WildLookup` is a run.
- At 2^20 buckets icao_filter.c stops growing, and an addition to a full table is dropped:
  `IcaoFilter.AddedIsKnown` has the condition and `IcaoFilter.FullDropsAddition` a run.
- The half-cell checks of `decodeCPRrelative` reject nothing but wraps by 360 degrees
  (`CprRelative.RelativeExactly`), because the cell chosen is always the nearest one.
- `set_globe_index` gives up halfway for an index above `GLOBE_MAX_INDEX`, which would leave
  lists and indexes in disagreement (`GlobeLists.GlobeIndex.SetGlobeIndex`). That branch is
  never reached: `GlobeSquares.GlobeIndexOf` returns no such index, and
  `GlobeLists.GlobeIndex.Run` keeps the lists right over every run. At latitude 90 itself the
  square has no list from longitude -177 on, and the position goes to the first special tile.

## Model

| member | source | states |
|---|---|---|
| Polynomial.RemainderLinear | bridge/src/main/cpp/gpl/readsb/crc.c:67-82 | the remainder modulo the generator of the sum of two bit strings is the sum of their remainders, for every length |
| Polynomial.RemainderLeadingZeros | bridge/src/main/cpp/gpl/readsb/crc.c:383-406 | leading zero bits do not change a remainder, which is why one table of single bit syndromes serves both message lengths |
| Polynomial.RemainderOneBit | bridge/src/main/cpp/gpl/readsb/crc.c:42-65 | the remainder of a message with the single bit i set is the power x^(n-1-i) |
| MessageBits.FlipAddsPatternSyndrome | bridge/src/main/cpp/gpl/readsb/crc.c:383-406 | bit errors add their own syndrome, whatever message they fall on |
| MessageBits.PatternSyndromeInsert | bridge/src/main/cpp/gpl/readsb/crc.c:130-149 | one more error adds the syndrome of its position |
| MessageBits.PatternSyndromeShift | bridge/src/main/cpp/gpl/readsb/crc.c:130-149 | the syndrome of a pattern does not change when the message and the positions are both shifted, which justifies the offset of short messages |
| MessageBits.FlipBitsFlips | bridge/src/main/cpp/gpl/readsb/crc.c:410-418 | inverting listed bits byte by byte inverts exactly that set of bits of the message |
| Checksum.RemainderOfByte | bridge/src/main/cpp/gpl/readsb/crc.c:67-82 | a single byte is its own remainder |
| Checksum.TableStepIsEightShifts | bridge/src/main/cpp/gpl/readsb/crc.c:67-82 | one table lookup multiplies the register with the byte added on top by x^8 modulo the generator |
| Checksum.LookupTables.constructor | bridge/src/main/cpp/gpl/readsb/crc.c:42-65 | both tables hold what they should: the byte table the remainders, the syndrome table the syndrome of each bit of a long message |
| Checksum.LookupTables.ModesChecksum | bridge/src/main/cpp/gpl/readsb/crc.c:67-82 | for every whole number of bytes from three up, the byte table loop computes the bit-at-a-time remainder of the whole message |
| BridgeParity.EntryIsMonomial | bridge/src/main/cpp/native_modes_decoder.cpp:37-49 | entry i of the bridge's literal table is x^(111-i) modulo the generator |
| BridgeParity.MonomialsDistinct | bridge/src/main/cpp/gpl/readsb/crc.c:383-406 | all 112 single bit syndromes differ |
| BridgeParity.ParityMatches | bridge/src/main/cpp/native_modes_decoder.cpp:151-159 | the sum over the bridge's table equals the parity field exactly when the syndrome of crc.c is zero |
| BridgeParity.ValidChecksum | bridge/src/main/cpp/native_modes_decoder.cpp:151-159 | the loop accepts a 112 bit message if and only if its syndrome is zero |
| Patterns.BinomialRatio | bridge/src/main/cpp/gpl/readsb/crc.c:98-113 | each partial product of the binomial is divisible, so the integer divisions are exact |
| Patterns.Combinations | bridge/src/main/cpp/gpl/readsb/crc.c:98-113 | the product loop computes the binomial coefficient, also for k = 0, k = n and k > n |
| Patterns.ExtensionsSound | bridge/src/main/cpp/gpl/readsb/crc.c:130-149 | every pattern that the recursion visits extends its base by positions of the range and is not too large |
| Patterns.ExtensionsComplete | bridge/src/main/cpp/gpl/readsb/crc.c:130-149 | every such pattern is visited |
| Patterns.ExtensionsDistinct | bridge/src/main/cpp/gpl/readsb/crc.c:130-149 | no pattern is visited twice |
| Patterns.ExtensionsCount | bridge/src/main/cpp/gpl/readsb/crc.c:130-149 | the number of patterns visited is the sum of binomials |
| ErrorTable.PrepareSubtable | bridge/src/main/cpp/gpl/readsb/crc.c:130-149 | the recursive fill writes one entry for each pattern in turn, with its positions, count and syndrome, and nothing below its start |
| TableOps.RemoveDuplicates | bridge/src/main/cpp/gpl/readsb/crc.c:243-263 | of a sorted table exactly the entries whose syndrome is unique stay, in order |
| TableOps.SolitaryByNeighbours | bridge/src/main/cpp/gpl/readsb/crc.c:243-256 | on a sorted table comparing neighbours decides uniqueness |
| PrepareTable.SolitaryIsIsolated | bridge/src/main/cpp/gpl/readsb/crc.c:243-263 | an entry is unique in the filled table if and only if no other set of so many errors has its syndrome |
| CollisionFlags.BSearch | bridge/src/main/cpp/gpl/readsb/crc.c:383-406 | stands for the library's bsearch: on a strictly sorted table it finds an entry with the syndrome if there is one |
| CollisionFlags.FlagOne | bridge/src/main/cpp/gpl/readsb/crc.c:151-175 | exactly the entry with the given syndrome is flagged, and counted if it was not flagged before |
| CollisionFlags.FlagCollisions | bridge/src/main/cpp/gpl/readsb/crc.c:151-175 | exactly the entries hit by a pattern of first_error to last_error positions are flagged, and the count returned is the number of entries newly flagged |
| PrepareTable.MaxSize | bridge/src/main/cpp/gpl/readsb/crc.c:195-198 | the table is allocated with exactly the room that the recursive fill needs |
| PrepareTable.RemoveFlagged | bridge/src/main/cpp/gpl/readsb/crc.c:280-293 | compaction keeps exactly the unflagged entries, in order |
| PrepareTable.IsolatedAgainstMore | bridge/src/main/cpp/gpl/readsb/crc.c:265-294 | a set is alone with its syndrome among max_detect errors if and only if it is alone among max_correct and no larger set hits it |
| PrepareTable.PrepareErrorTable | bridge/src/main/cpp/gpl/readsb/crc.c:180-350 | the table returned is strictly sorted, and holds a set of 1 to max_correct positions of [5, bits) if and only if no other set of 1 to max_detect positions has its syndrome |
| Correction.ErrorTables.constructor | bridge/src/main/cpp/gpl/readsb/crc.c:353-378 | the tables of both lengths, or none, for each setting of the number of bits to fix |
| Correction.ErrorTables.ModesChecksumDiagnose | bridge/src/main/cpp/gpl/readsb/crc.c:383-406 | the answer is the unique correctable explanation of the syndrome, or none: with one bit to fix among single errors, with two bits to fix one or two errors that no other pattern of up to four can be mistaken for, and with none nothing |
| Correction.ModesChecksumFix | bridge/src/main/cpp/gpl/readsb/crc.c:410-418 | exactly the diagnosed bits of the message are inverted |
| Correction.CorrectionRestores | bridge/src/main/cpp/gpl/readsb/crc.c:383-418 | a message with checksum zero that suffers 1 to max_detect errors from bit 5 on is restored exactly whenever a repair is diagnosed |
| TwoBitRepair.FourErrorsAreHarmless | bridge/src/main/cpp/gpl/readsb/crc.c:368-374 | with two bits to fix, a message with one to four errors behind its format is refused, or one or two bits are inverted and it is the message that was sent |
| TwoBitRepair.RepairMessage | bridge/src/main/cpp/gpl/readsb/crc.c:348-419 | the same over the code: tables made for two bits, checksum, diagnosis and repair leave such a message alone or restore it |
| TwoBitRepair.AmbiguousIsLeftAlone | bridge/src/main/cpp/gpl/readsb/crc.c:368-374 | the syndrome 0x2ed319 of bits 5 and 6 is also that of bits 10, 12, 41 and 91, and is refused |
| Correction.RepairIsConsistent | bridge/src/main/cpp/gpl/readsb/crc.c:383-418 | every repair leaves checksum zero, changes none of the bits 0 to 4, and at most max_correct bits |
| Correction.EverySingleErrorCorrectable | bridge/src/main/cpp/gpl/readsb/crc.c:353-378 | with one bit to fix, every single error from bit 5 on is diagnosed as itself |
| FewErrors.FourPowersRemain | bridge/src/main/cpp/gpl/readsb/crc.c:61-82 | no four different single-bit syndromes of one message cancel, whatever the positions |
| FewErrors.NeverIntact | bridge/src/main/cpp/gpl/readsb/crc.c:383-386 | no pattern of one to four errors, format field included, has the syndrome of an intact message |
| FewErrors.NeverSingle | bridge/src/main/cpp/gpl/readsb/crc.c:363-366 | no pattern of two to four errors has the syndrome of a single error |
| FewErrors.SinglesAreIsolated | bridge/src/main/cpp/gpl/readsb/crc.c:363-366 | a single error is alone with its syndrome among all patterns of up to four errors, so that the table for one-bit correction needs no collision check |
| FewErrors.FewErrorsDetected | bridge/src/main/cpp/gpl/readsb/crc.c:363-406 | with one bit to fix, a message with two to four errors anywhere is never taken for an intact or a correctable one |
| SyndromeParity.OddOfPattern | bridge/src/main/cpp/gpl/readsb/crc.c:31-82 | the weight of a syndrome is odd if and only if the number of errors is |
| Correction.OddErrorsDetected | bridge/src/main/cpp/gpl/readsb/crc.c:383-406 | an odd number of errors never leaves checksum zero |
| AddressRing.Ring.constructor | bridge/src/main/cpp/readsb_bridge_adapter.c:58-61 | no address is known at the start |
| AddressRing.Ring.IcaoFilterAdd | bridge/src/main/cpp/readsb_bridge_adapter.c:69-76 | the address becomes the newest of the ring in place of the oldest, unless it is reserved or already there |
| AddressRing.Ring.IcaoFilterTest | bridge/src/main/cpp/readsb_bridge_adapter.c:78-84 | true exactly for the addresses in the ring that are not reserved |
| AddressRing.AnnounceKeepsDistinct | bridge/src/main/cpp/readsb_bridge_adapter.c:69-76 | the ring never holds an address twice |
| AddressRing.AnnouncedSurvives | bridge/src/main/cpp/readsb_bridge_adapter.c:69-76 | an address survives as many additions as there are slots before it is due |
| AddressRing.NewestSurvives | bridge/src/main/cpp/readsb_bridge_adapter.c:69-76 | a new address survives any 4095 further additions |
| ModeSFields.FlipBitAddress | bridge/src/main/cpp/gpl/readsb/mode_s.c:230-245 | inverting a message bit inverts the matching bit of the address field, or none |
| ModeS.CorrectAAField | bridge/src/main/cpp/gpl/readsb/mode_s.c:230-245 | the address is corrected to the address field of the repaired message, and the errors in it are counted |
| ModeS.FixDF17MsgType | bridge/src/main/cpp/gpl/readsb/mode_s.c:276-301 | the format byte is rewritten exactly when the format is one bit from 17 and the message is then intact; otherwise nothing changes |
| ModeS.ScoreModesMessage | bridge/src/main/cpp/gpl/readsb/mode_s.c:309-419 | the score of every message of every length, and the message is unchanged afterwards |
| ModeS.ScoreChecked | bridge/src/main/cpp/gpl/readsb/mode_s.c:333-419 | the score by format, with error tables and known addresses |
| ScoreOrder.KnownRanksHigher | bridge/src/main/cpp/gpl/readsb/mode_s.c:309-427 | whatever the message, if it scores it scores strictly more when its repaired address is known than when it is not |
| ScoreOrder.FewerErrorsRankHigher | bridge/src/main/cpp/gpl/readsb/mode_s.c:401-416 | of two squitters the one that needs fewer corrections scores strictly more, whichever addresses are known |
| ScoreOrder.SquitterValues | bridge/src/main/cpp/gpl/readsb/mode_s.c:401-416 | an intact squitter scores 1800 or 1400 and one with a damaged bit 900 or 700, by whether its address is known |
| ScoreOrder.DamagedFormatValues | bridge/src/main/cpp/gpl/readsb/mode_s.c:319-332 | a squitter with a damaged format scores 900 or 700 |
| ScoreOrder.AllCallValues | bridge/src/main/cpp/gpl/readsb/mode_s.c:361-399 | an all-call reply scores 1600 or 750 without an interrogator, and 1000 or nothing with one |
| ScoreOrder.RepairedAllCallValues | bridge/src/main/cpp/gpl/readsb/mode_s.c:361-399 | an all-call reply with one damaged bit scores 800 if its address is known and nothing if not |
| ScoreOrder.ShortIsRefused | bridge/src/main/cpp/gpl/readsb/mode_s.c:309-341 | what is shorter than 56 bits, or than its format, does not score |
| ScoreOrder.ReplyValues | bridge/src/main/cpp/gpl/readsb/mode_s.c:343-359 | a surveillance reply scores 1000 if its address is known and nothing if not, an ELM message never |
| ModeSDecode.FieldsAreBits | bridge/src/main/cpp/gpl/readsb/mode_s.h:56-111 | the format, the control field and the type and subtype of the payload are the numbers spelled by bits 1-5, 6-8, 33-37 and 38-40 |
| ModeSDecode.Classify | bridge/src/main/cpp/gpl/readsb/mode_s.c:451-466 | the format, length and checksum of the message, after the format repair |
| ModeSDecode.CheckSquitter | bridge/src/main/cpp/gpl/readsb/mode_s.c:539-569 | a squitter passes if and only if its repair keeps its address or moves it to a known one; the message is repaired accordingly |
| ModeSDecode.CheckAllCall | bridge/src/main/cpp/gpl/readsb/mode_s.c:497-537 | an all-call reply passes if its errors are within the interrogator code, or if one error is repaired and the address then known |
| ModeSDecode.ValidateChecksum | bridge/src/main/cpp/gpl/readsb/mode_s.c:471-596 | which messages pass, by format, what is repaired, and that correctedbits counts it |
| ModeSDecode.DecodeExtendedSquitter | bridge/src/main/cpp/gpl/readsb/mode_s.c:1454-1556 | the address is marked in exactly the DF18 kinds that carry another address |
| ModeSDecode.DecodeModesMessage | bridge/src/main/cpp/gpl/readsb/mode_s.c:443-803 | a message is accepted exactly when its checksum is right or can be repaired and its address is acceptable; a refusal says -2 if no known address would help, and else -1 with the address that would; what is repaired, which address it gets, how many bits are corrected and which address becomes known |
| AddressSafety.SquitterFlips | bridge/src/main/cpp/gpl/readsb/mode_s.c:276-301 | the format repair inverts exactly one bit |
| AddressSafety.DamagedExactly | bridge/src/main/cpp/gpl/readsb/mode_s.c:276-301 | a message is taken for a damaged DF17 if and only if inverting one of its five format bits gives an intact one, and that one is decoded |
| AddressSafety.AcceptedSquitter | bridge/src/main/cpp/gpl/readsb/mode_s.c:539-569 | every accepted DF17 or DF18 message ends with checksum zero, is the received one with the counted bits inverted, and its address is unchanged or was known |
| AddressSafety.AnnouncedCleanly | bridge/src/main/cpp/gpl/readsb/mode_s.c:766-779 | a message makes an address known only if it was received intact as DF17, or DF11 with interrogator code zero, and then only its own address, below 2^24 |
| AddressSafety.KnownWasAnnounced | bridge/src/main/cpp/gpl/readsb/mode_s.c:766-779 | over every run: each known address fits in 24 bits and was announced by an earlier intact message |
| AddressSafety.AnnouncedIsKnown | bridge/src/main/cpp/gpl/readsb/mode_s.c:766-779 | over every run: an address other than zero that a message announces without errors is known afterwards |
| AddressSafety.AnnouncedStays | bridge/src/main/cpp/readsb_bridge_adapter.c:69-76 | over every run: an address announced for the first time stays known through the next 4096 messages at least, whatever they are |
| AddressSafety.MovedAddressWasAnnounced | bridge/src/main/cpp/gpl/readsb/mode_s.c:545-563 | over every run: when a repair moves a squitter to another address, an earlier intact message announced that address |
| AddressSafety.ParityAddressWasAnnounced | bridge/src/main/cpp/gpl/readsb/mode_s.c:472-495 | over every run: an address recovered from a parity field was announced by an earlier intact message |
| AddressSafety.MarkedNeverKnown | bridge/src/main/cpp/gpl/readsb/mode_s.c:848-869 | over every run: an address that setIMF or decodeExtendedSquitter marks keeps its 24 bits and is never known, before or after its message |
| AddressSafety.ScoreForecastsDecoding | bridge/src/main/cpp/gpl/readsb/mode_s.c:309-419 | whatever decoding makes of a message, a positive score and acceptance agree except in two families, which are given exactly; an accepted DF17 or DF18 message always has a positive score |
| ForecastFailures.SyndromeChosen | bridge/src/main/cpp/gpl/readsb/crc.c:67-82 | parity bytes can be chosen behind any bytes so that any given syndrome results |
| ForecastFailures.AcceptedWithoutScore | bridge/src/main/cpp/gpl/readsb/mode_s.c:309-419 | concrete messages of the first family: an all-call reply to interrogator 1 and an ELM reply of a known address are accepted although their score is not positive |
| ForecastFailures.ScoredThenRefused | bridge/src/main/cpp/gpl/readsb/mode_s.c:539-569 | a concrete message of the second family: an intact squitter with one address bit inverted scores, and decoding refuses it |
| ProbeTable.FullRound | bridge/src/main/cpp/gpl/readsb/icao_filter.c:132-154 | a probe that goes all the way round has seen every slot |
| ProbeTable.StoppedAtEmpty | bridge/src/main/cpp/gpl/readsb/icao_filter.c:132-154 | a probe that stops at an empty slot proves the address is nowhere in the table |
| ProbeTable.PlacedAtEnd | bridge/src/main/cpp/gpl/readsb/icao_filter.c:112-130 | filling the slot at the end of a probe keeps every address findable and adds one |
| IcaoFilter.Filter.constructor | bridge/src/main/cpp/gpl/readsb/icao_filter.c:47-59 | both generations are empty |
| IcaoFilter.Filter.IcaoFilterTest | bridge/src/main/cpp/gpl/readsb/icao_filter.c:132-154 | true exactly for the addresses of the current and the previous generation |
| IcaoFilter.Filter.IcaoFilterAdd | bridge/src/main/cpp/gpl/readsb/icao_filter.c:112-130 | the whole new state: the address joins the current generation if the table has a slot for it, and the table grows, which loses the previous generation, exactly when a new slot is one more than a third of it below 2^20 buckets, never inside a resize |
| IcaoFilter.Filter.IcaoFilterResize | bridge/src/main/cpp/gpl/readsb/icao_filter.c:65-93 | the current generation survives in the new table, the previous one does not, and no add in it resizes again |
| IcaoFilter.Filter.IcaoFilterExpire | bridge/src/main/cpp/gpl/readsb/icao_filter.c:96-110 | the current generation becomes the previous one, whether or not the table shrinks |
| IcaoFilter.Filter.AlwaysAnEmptySlot | bridge/src/main/cpp/gpl/readsb/icao_filter.c:112-154 | below 2^20 buckets both tables always have an empty slot, so every probe ends early |
| IcaoFilter.Decided | bridge/src/main/cpp/gpl/readsb/icao_filter.c:112-130 | where a probe stops decides whether the address is new and has a slot, and filling that slot stores exactly it |
| IcaoFilter.CurrentSurvives | bridge/src/main/cpp/gpl/readsb/icao_filter.c:96-130 | over any run that does not add it again: a current address stays known if and only if there is at most one expiry and the additions after it do not make the table grow |
| IcaoFilter.PreviousSurvives | bridge/src/main/cpp/gpl/readsb/icao_filter.c:96-130 | over any run that does not add it again: a previous address stays known if and only if nothing expires and the additions do not make the table grow |
| IcaoFilter.SurvivesExpiry | bridge/src/main/cpp/gpl/readsb/icao_filter.c:96-130 | an address that is current when the filter expires survives any 85 additions |
| IcaoFilter.AddedIsKnown | bridge/src/main/cpp/gpl/readsb/icao_filter.c:112-130 | an added address is known afterwards if and only if it was already or the table has a free slot |
| IcaoFilter.FullDropsAddition | bridge/src/main/cpp/gpl/readsb/icao_filter.c:112-130 | a run that fills the largest table, after which one more address is dropped |
| IcaoFilter.GoneForGood | bridge/src/main/cpp/gpl/readsb/icao_filter.c:96-130 | over any run: an unknown address stays unknown until it is added |
| LongitudeZones.JumpsSkipNothing | bridge/src/main/cpp/gpl/readsb/cpr.c:79-146 | the table with its shortcuts gives for every latitude what walking the whole table gives |
| LongitudeZones.ZonesShrink | bridge/src/main/cpp/gpl/readsb/cpr.c:79-146 | the number of longitude zones never grows towards the poles, on either side of the equator |
| Cpr.CprModIntIsMod | bridge/src/main/cpp/gpl/readsb/cpr.c:62-66 | the corrected C remainder is the mathematical one, also for negative operands |
| Cpr.LatIndexRecovered | bridge/src/main/cpp/gpl/readsb/cpr.c:170-194 | the latitude index identifies the zones of both frames, for latitudes within (1/2 - 119/2^18) 360/3540 degrees |
| Cpr.LonIndexRecovered | bridge/src/main/cpp/gpl/readsb/cpr.c:200-217 | the longitude index identifies the zones of both frames, within the analogous bound for n (n-1) |
| Cpr.EncodedPositionRecovered | bridge/src/main/cpp/gpl/readsb/cpr.c:170-221 | for any two such positions decoding never calls the data bad, refuses exactly when the zone counts differ, and otherwise returns the encoded position |
| Cpr.AirborneRoundTrip | bridge/src/main/cpp/gpl/readsb/cpr.c:170-221 | the returned position is within half a bin of the position of the frame that fflag selects, longitude modulo 360, also across the date line |
| CprSurface.SurfaceRoundTrip | bridge/src/main/cpp/gpl/readsb/cpr.c:223-319 | the surface decoder returns the encoded position of the selected frame for references less than 45 degrees away, in every hemisphere and quadrant |
| CprRelative.ModDoubleIsOffset | bridge/src/main/cpp/gpl/readsb/cpr.c:68-72 | cprModDouble is the offset within a cell on both sides of zero |
| CprRelative.NearestCell | bridge/src/main/cpp/gpl/readsb/cpr.c:331-374 | the cell chosen is the one nearest to the reference |
| CprRelative.NearestIsUnique | bridge/src/main/cpp/gpl/readsb/cpr.c:331-374 | no other position of that fraction is strictly within half a cell |
| CprRelative.RelativeExactly | bridge/src/main/cpp/gpl/readsb/cpr.c:331-374 | for all inputs: the decoder returns the nearest position, and rejects exactly a latitude beyond a pole or a longitude that had to be wrapped by 360 degrees |
| CprRelative.RelativeFinds | bridge/src/main/cpp/gpl/readsb/cpr.c:331-374 | a position with the frame's fields strictly within half a cell of the reference is what is returned |
| CprRelative.RelativeAgreesWithGlobal | bridge/src/main/cpp/gpl/readsb/cpr.c:331-374 | for all frames: where the global decoder succeeds within half a cell of the reference, the relative decoder returns the same position |
| GlobalPosition.SameTable | bridge/src/main/cpp/native_modes_decoder.cpp:200-261 | the table of cpr_nl and the table of cprNLFunction, each written out, agree for every latitude |
| GlobalPosition.AircraftState.DecodeGlobalPosition | bridge/src/main/cpp/native_modes_decoder.cpp:302-330 | where decodeCPRairborne succeeds on frames at most 10 seconds apart the bridge returns the same latitude and the same longitude except 180 for -180; it answers beyond that exactly when a latitude lies beyond a pole |
| GlobalPosition.AircraftState.DecodeReadsbGlobalPosition | bridge/src/main/cpp/native_modes_decoder.cpp:332-355 | succeeds exactly when both frames are there and fresh and decodeCPRairborne does, with its position |
| GlobalPosition.BridgeMissesThePoleCheck | bridge/src/main/cpp/native_modes_decoder.cpp:302-330 | a concrete pair of frames, at 93 degrees north, that cpr.c rejects and the bridge accepts |
| TraceCache.HoldsSlide | bridge/src/main/cpp/gpl/readsb/json_out.c:1583-1613 | dropping the first entries, moving the rest and shifting offsets keeps every entry showing its point |
| TraceCache.HoldsRender | bridge/src/main/cpp/gpl/readsb/json_out.c:1822-1832 | the bytes from one entry to the last are the concatenated prints of their points |
| TraceCache.MoveToFront | bridge/src/main/cpp/gpl/readsb/json_out.c:1609-1610 | memmove to the front of an array |
| TraceCache.SprintTracePoint | bridge/src/main/cpp/gpl/readsb/json_out.h:52-60 | a print that fits is appended; one that does not stops at the end of the buffer, and nothing before it changes |
| TraceCache.TraceCache.Reprint | bridge/src/main/cpp/gpl/readsb/json_out.c:1670-1723 | an entry is printed anew behind the entries before it, or the cache is cut there when it does not fit |
| TraceCache.TraceCache.Refresh | bridge/src/main/cpp/gpl/readsb/json_out.c:1661-1723 | an entry that matches stays as it is with all others, another is replaced and those behind it dropped |
| TraceCache.TraceCache.Slide | bridge/src/main/cpp/gpl/readsb/json_out.c:1605-1613 | the entries before the first recent one are dropped from the front |
| TraceCache.TraceCache.MakeRoom | bridge/src/main/cpp/gpl/readsb/json_out.c:1577-1620 | over capacity the cache slides or is given up; in both cases it still shows a part of the history |
| TraceCache.TraceCache.Locate | bridge/src/main/cpp/gpl/readsb/json_out.c:1547-1629 | the first recent point is found by its time, and the cache is used again exactly if it has an entry and room, be it by sliding |
| TraceCache.TraceCache.Refill | bridge/src/main/cpp/gpl/readsb/json_out.c:1661-1724 | after the loop the entries are the recent points, or all that fit |
| TraceCache.TraceCache.CheckTraceCache | bridge/src/main/cpp/gpl/readsb/json_out.c:1506-1733 | across reuse, sliding, truncation and reset: the entries are contiguous, and from the first recent one on they are the prints of the recent points, all of them unless the buffer or the entries are full |
| TraceCache.TraceCache.RecentTraceJson | bridge/src/main/cpp/gpl/readsb/json_out.c:1799-1832 | the bytes sent for a recent trace equal a fresh print of its recent points whenever the call maintains the cache and prints fit their 280 bytes; when the call leaves the cache alone, the points sent are the recent ones if and only if timestamps and leg markers of the entries are theirs |
| TraceCache.TraceCache.ListedAreShown | bridge/src/main/cpp/gpl/readsb/json_out.c:1506-1519 | a cache shows the recent points if and only if its entries from the first recent one on have their number, timestamps and leg markers |
| TraceCache.StalePrint | bridge/src/main/cpp/gpl/readsb/json_out.c:1506-1509 | a run in which a point appended to the trace is not sent, a minute after its position was stored |
| TraceCache.TraceCache.HistoryGrows | bridge/src/main/cpp/gpl/readsb/json_out.c:1545-1568 | a cache keeps its meaning while points are appended to the trace |
| TraceCache.TraceCache.ShortPrintsFit | bridge/src/main/cpp/gpl/readsb/json_out.c:1529-1535 | with prints below 280 bytes the buffer always suffices, so no recent point is missing |
| TraceCodec.PlainIsLossless | bridge/src/main/cpp/gpl/readsb/globe_index.c:2124-2337 | a codec exists that unpacks concatenated frames to the concatenation of their points, as the trace store assumes |
| TraceStore.Trace.constructor | bridge/src/main/cpp/gpl/readsb/globe_index.c:1907-1927 | an aircraft without a trace |
| TraceStore.UnpackedLength | bridge/src/main/cpp/gpl/readsb/globe_index.c:2124-2337 | the chunks' numStates add up to the points they unpack to, a multiple of SFOUR |
| TraceStore.Trace.RecompressStateChunk | bridge/src/main/cpp/gpl/readsb/globe_index.c:2016-2108 | the same points in another encoding if that is shorter, and large chunks are left alone |
| TraceStore.Trace.ResizeTraceChunks | bridge/src/main/cpp/gpl/readsb/globe_index.c:1761-1826 | shrinking drops chunks from the front, growing adds at the end, the rest stays |
| TraceStore.Trace.CompressChunk | bridge/src/main/cpp/gpl/readsb/globe_index.c:2124-2337 | exactly the points that it reports are appended to what the chunks unpack to, in whole fourStates; at least SFOUR of them for whole fourStates, none otherwise, and as many as the time span of the chunk allows |
| TraceStore.Trace.NominalExactly | bridge/src/main/cpp/gpl/readsb/globe_index.c:2375-2381 | the nominal room for live points in numbers: twelve more than the reserve once idle, before that sixteen more than the recent points or the reserve and a chunk |
| TraceStore.Trace.ResizeTraceCurrent | bridge/src/main/cpp/gpl/readsb/globe_index.c:2383-2410 | the live points and the buffered slot survive, and there is room for the reserve |
| TraceStore.Trace.CompressCurrent | bridge/src/main/cpp/gpl/readsb/globe_index.c:2412-2445 | the whole trace and the buffered slot are unchanged; the live array shrinks exactly when it has enough points |
| TraceStore.Trace.SetTrace | bridge/src/main/cpp/gpl/readsb/globe_index.c:2339-2373 | the trace is the source afterwards and the slot behind it the source's; the loop ends because every call packs at least SFOUR points |
| TraceStore.Trace.TracePrune | bridge/src/main/cpp/gpl/readsb/globe_index.c:1828-1882 | a suffix stays: only points from before keep_after are dropped, in whole fourStates, the buffered slot stays unless nothing is left, and afterwards neither the first chunk nor the first reserve of live points ends before keep_after |
| TraceStore.Trace.TraceUsePosBuffered | bridge/src/main/cpp/gpl/readsb/globe_index.c:1884-1896 | the buffered position becomes the last point, if there is one |
| TraceStore.Trace.TraceCleanup | bridge/src/main/cpp/gpl/readsb/globe_index.c:1907-1934 | nothing is left of the trace |
| TraceStore.Trace.StorePosition | bridge/src/main/cpp/gpl/readsb/globe_index.c:2863-3030 | a position is appended or buffered behind the trace and nothing before it changes; it is refused exactly when the live array is full |
| TraceStore.Trace.TraceMaintenance | bridge/src/main/cpp/gpl/readsb/globe_index.c:2447-2555 | whatever is packed, moved and resized, the trace keeps its points and its buffered position but for expired ones in front; all of it goes if the last live point is expired, and else the chunks that have ended, and of a trace without chunks less stays expired than the reserve; live points leave room for the next position, a full array is packed, and the last chunk of an idle aircraft is finished |
| TraceReassembly.ReassembleTrace | bridge/src/main/cpp/gpl/readsb/globe_index.c:1938-2014 | the result is a suffix of the whole trace that has every requested point, starts at a chunk boundary and needs all its chunks |
| TraceReassembly.FirstIndexGeTimestamp | bridge/src/main/cpp/gpl/readsb/globe_index.c:461-479 | the exact lower bound of a timestamp in a reassembled trace |
| CraftArrayLock.StepInv | bridge/src/main/cpp/gpl/readsb/globe_index.c:1615-1716 | every step of every thread keeps the invariant of the lock |
| CraftArrayLock.ReallocationIsExclusive | bridge/src/main/cpp/gpl/readsb/globe_index.c:1615-1690 | in every interleaving no reader is inside while the list is reallocated |
| CraftArrayLock.NoDeadlock | bridge/src/main/cpp/gpl/readsb/globe_index.c:1615-1716 | in every reachable state where some thread is busy, a busy thread can move |
| GlobeLists.CraftArray.Add | bridge/src/main/cpp/gpl/readsb/globe_index.c:1660-1690 | the aircraft is in the list once, appended only if it was missing |
| GlobeLists.CraftArray.Remove | bridge/src/main/cpp/gpl/readsb/globe_index.c:1692-1716 | the aircraft is gone, everyone else stays, once each |
| GlobeSquares.GlobeIndexOf | bridge/src/main/cpp/gpl/readsb/globe_index.c:365-400 | for all positions: the first special tile around it, otherwise its square, and never more than GLOBE_MAX_INDEX; not negative on the globe |
| GlobeSquares.CoversAround | bridge/src/main/cpp/gpl/readsb/globe_index.c:377-384 | a special tile reaches eastwards from its western side to its eastern one, over the antimeridian too |
| GlobeSquares.CornerHolds | bridge/src/main/cpp/gpl/readsb/globe_index.c:369-371 | a position on the globe lies in the three degrees from its corner on, which is on the grid |
| GlobeSquares.SquaresDiffer | bridge/src/main/cpp/gpl/readsb/globe_index.c:365-400 | two positions on the globe have the same square index exactly when they have the same corner |
| GlobeSquares.OnlyThePole | bridge/src/main/cpp/gpl/readsb/globe_index.c:391-396 | the square is beyond the last index exactly at latitude 90 from longitude -177 on |
| GlobeLists.GlobeIndex.constructor | bridge/src/main/cpp/gpl/readsb/globe_index.c:1641-1646 | all lists are empty |
| GlobeLists.GlobeIndex.Run | bridge/src/main/cpp/gpl/readsb/globe_index.c:1718-1739 | over every run of new positions, removals and loaded aircraft each aircraft is in exactly the list of its index, once |
| GlobeLists.GlobeIndex.SetGlobeIndex | bridge/src/main/cpp/gpl/readsb/globe_index.c:1718-1739 | every aircraft is in exactly the list of its index if and only if the indexes are in range |
| StateBlob.ChunksRoundTrip | bridge/src/main/cpp/gpl/readsb/globe_index.c:1054-1085 | the chunks are read back with their padding skipped |
| StateBlob.AircraftRoundTrip | bridge/src/main/cpp/gpl/readsb/globe_index.c:914-1142 | reading the record of an aircraft gives the aircraft and stops exactly at its end |
| StateBlob.FrameRoundTrip | bridge/src/main/cpp/gpl/readsb/globe_index.c:3275-3294 | a frame reads back as all aircraft written into it, in order |
| StateBlob.RecordFits | bridge/src/main/cpp/gpl/readsb/globe_index.c:3117-3144 | the room computed for an aircraft holds its record and the end magic, to the byte if it has a trace |
| BlobWriter.WriteRecord | bridge/src/main/cpp/gpl/readsb/globe_index.c:3218-3252 | the bytes of an aircraft are written behind those before it, inside the buffer |
| BlobWriter.ProgressWellCut | bridge/src/main/cpp/gpl/readsb/globe_index.c:3115-3253 | however aircraft are cut into frames: no aircraft is lost, each frame with its end magic fits its buffer, the first buffer has the configured size, a frame is begun only by an aircraft that did not fit the one before, and the buffer grows only for an aircraft larger than it, to twice its room |
| BlobWriter.SaveBlob | bridge/src/main/cpp/gpl/readsb/globe_index.c:3060-3273 | the save succeeds if and only if the compressed form of every frame fits the output buffer of the first size; reading it gives back every aircraft once, in order, with its chunks and live points and its buffered position as the last of them; a failed save leaves a chunk size more than twice as large |
| BlobWriter.WithoutGrowth | bridge/src/main/cpp/gpl/readsb/globe_index.c:3107-3108 | when every aircraft fits the buffer as it is, every frame fits the output buffer |
| BlobGrowth.BoundCovers | bridge/src/main/cpp/gpl/readsb/globe_index.c:3107-3108 | no lossless compressor has a bound below the size of its input |
| BlobGrowth.AmongMany | bridge/src/main/cpp/gpl/readsb/globe_index.c:3191-3203 | whatever the lossless compressor and the layout: of more than twice 256^bound aircraft that differ in one chunk larger than the buffer, there is one with which the save fails |
| BlobGrowth.GrowthCanFail | bridge/src/main/cpp/gpl/readsb/globe_index.c:3191-3203 | every aircraft with a chunk larger than the bound of the first buffer has a chunk of that size with which the save fails, for every lossless compressor and every layout |
| BlobGrowth.NoCompressorIsSafe | bridge/src/main/cpp/gpl/readsb/globe_index.c:3107-3108 | for every lossless compressor and every size of the first buffer there is an aircraft that can be written and with which the save fails |
| IqStream.StreamGrows | bridge/src/main/cpp/native_modes_decoder.cpp:701-734 | what a call appends to the samples does not depend on how the bytes were cut |
| IqStream.IqBuffers.FillMagnitudes | bridge/src/main/cpp/native_modes_decoder.cpp:715-734 | the pending byte and the new bytes are paired in order behind the tail, an odd last byte waits |
| IqStream.IqBuffers.ReadBlock | bridge/src/main/cpp/native_modes_decoder.cpp:701-734 | the block is the last part of all samples of the stream: the tail and the new ones |
| IqStream.IqBuffers.KeepTail | bridge/src/main/cpp/native_modes_decoder.cpp:749-755 | the tail kept is the last min(capacity, total) samples of the stream |
| SampleStream.DecodeMessage | bridge/src/main/cpp/native_modes_decoder.cpp:161-183 | a message is accepted exactly when its bits are clear, its format is 17 or 18 and its syndrome zero, and its bytes are then the sliced bits |
| SampleStream.Scan | bridge/src/main/cpp/native_modes_decoder.cpp:736-747 | what is reported are messages of the block at distances of a window at least, and no accepted position before the limit lies outside of them |
| SampleStream.CallIsFaithful | bridge/src/main/cpp/native_modes_decoder.cpp:686-764 | scanning the tail and the new samples misses nothing between two calls |
| SampleStream.Decoder.ProcessIq | bridge/src/main/cpp/native_modes_decoder.cpp:686-764 | however the bytes are cut into calls: the samples are the pairing of the whole stream, every report is a message of the stream, and every accepted position p with p + 240 < total lies in a reported message |
| SquitterSignal.SquitterIsAccepted | bridge/src/main/cpp/native_modes_decoder.cpp:161-183 | a message that is sent, with noise of up to a quarter, is accepted if and only if its format is 17 or 18 and its parity right, and what is reported is that message |
| SquitterSignal.PreambleExactly | bridge/src/main/cpp/native_modes_decoder.cpp:130-149 | a preamble is seen if and only if every pulse is above 5/4 of every quiet sample and 5/3 of their average rounded down, and all pulses together above all that is quiet |
| SquitterSignal.ClearExactly | bridge/src/main/cpp/native_modes_decoder.cpp:172-175 | a bit is clear if and only if one half is at least 17/15 of the other |
| SquitterSignal.SquitterIsReported | bridge/src/main/cpp/native_modes_decoder.cpp:686-764 | over every run of calls a valid squitter that was sent lies in a reported message once one more sample has arrived |
| SquitterSignal.MagnitudeTurns | bridge/src/main/cpp/native_modes_decoder.cpp:701-734 | the magnitude does not depend on the phase of the carrier, and only the middle of the range is silent |
| ReadsbStream.CallTries | bridge/src/main/cpp/native_modes_decoder.cpp:593-669 | no position falls between two blocks of the demodulator |
| ReadsbStream.HonestIsLate | bridge/src/main/cpp/native_modes_decoder.cpp:646-662 | messages of a block are late by five ticks for each sample of the tail, so their time is right if and only if the block has no tail or no candidate |
| ReadsbStream.LevelTurns | bridge/src/main/cpp/native_modes_decoder.cpp:615-622 | the magnitude does not depend on the phase of the carrier, and is 364 for every step on an axis |
| ReadsbStream.ReadsbDecoder.ProcessReadsbDemodulator | bridge/src/main/cpp/native_modes_decoder.cpp:593-669 | over any run of calls every position whose longest message has arrived and that passes the pre-check is tried or lies behind an accepted message; a message is timed exactly min(512, earlier samples) samples after its place in the stream |
| SecondCall.LateMessage | bridge/src/main/cpp/native_modes_decoder.cpp:646-662 | a run of two calls, with the settings and magnitudes of the bridge and the scoring and acceptance of mode_s.c, in which the reply of a known aircraft is accepted and timed one sample late |
| AircraftStates.DecoderState.PruneAircraftStates | bridge/src/main/cpp/native_modes_decoder.cpp:105-129 | what timed out goes, at most 4096 states stay, and none that was seen after one that stays is dropped |
| Slicer.ByteHoldsBits | bridge/src/main/cpp/gpl/readsb/demod_2400.c:74-93 | a byte holds the eight bits that follow each other every 12 fifths of a sample |
| Slicer.LevelIsIgnored | bridge/src/main/cpp/gpl/readsb/demod_2400.c:74-93 | a higher level of all samples changes no correlator but that of phase 2, which it raises by the level |
| Slicer.SliceByte | bridge/src/main/cpp/gpl/readsb/demod_2400.c:133-213 | in each of its five unrolled cases the byte is what a loop over bit positions gives, and 5 pointer + phase advances by exactly 96 |
| Modulator.BitIsSliced | bridge/src/main/cpp/gpl/readsb/demod_2400.c:74-93 | each of the five correlators gives the bit that was sent, whatever the bits beside it, with noise of up to nine tenths of a fifth of a sample |
| Modulator.MessageIsSliced | bridge/src/main/cpp/gpl/readsb/demod_2400.c:133-258 | a message that was sent by pulse position modulation, beginning at any fifth of a sample, is sliced as it was sent |
| Modulator.PreambleIsFound | bridge/src/main/cpp/gpl/readsb/demod_2400.c:300-404 | the place of a preamble passes the pre-check and its phase is tried, for every threshold up to 83 |
| Modulator.SteadyIsNotFound | bridge/src/main/cpp/gpl/readsb/demod_2400.c:300-404 | a level that does not change is not tried in any phase, for every threshold from 32 on |
| Modulator.TransmissionIsTried | bridge/src/main/cpp/gpl/readsb/demod_2400.c:264-508 | the attempt at the place of a message that was sent scores at least what the message scores, and reports the message and the time of its preamble if its own phase is the best |
| Demodulator.SlicedHoldsBits | bridge/src/main/cpp/gpl/readsb/demod_2400.c:215-258 | bytes sliced one after the other hold one contiguous run of bits |
| Demodulator.Candidates.ScorePhase | bridge/src/main/cpp/gpl/readsb/demod_2400.c:215-258 | the best message is the first of the highest scoring phases tried, and the buffer swap never overwrites it |
| Demodulator.Candidates.TryPosition | bridge/src/main/cpp/gpl/readsb/demod_2400.c:300-404 | exactly the phases whose preamble is loud enough are tried, in order |
| Demodulator.Demodulate2400 | bridge/src/main/cpp/gpl/readsb/demod_2400.c:264-508 | every position that passes the pre-check is tried or lies behind an accepted message, none is tried within the two samples for every bit of one, every attempt reports the first best phase with its message and timestamp, the gain counters are those of windows that do not overlap, the power is that of the accepted messages, and every sample read is inside the padding |
| AircraftTable.LinkedWithout | bridge/src/main/cpp/gpl/readsb/track.c:3129-3130 | unlinking an element from a chain removes it and no other |
| AircraftTable.Table.QuickResize | bridge/src/main/cpp/gpl/readsb/aircraft.c:116-127 | a cache of the new size, all places empty and with wild pointers |
| AircraftTable.Table.QuickGet | bridge/src/main/cpp/gpl/readsb/aircraft.c:129-138 | the first entry of the stride with the address, or none when the stride has none |
| AircraftTable.Table.SetActive | bridge/src/main/cpp/gpl/readsb/track.c:2876-2879 | taking an aircraft up or letting it go changes no lookup, and of the cached entries only whether that aircraft is dropped by the next maintenance |
| AircraftTable.Table.Deactivate | bridge/src/main/cpp/gpl/readsb/track.c:3173-3176 | an aircraft that is let go leaves the cache, and every address finds what it found before |
| AircraftTable.Table.QuickMaintenance | bridge/src/main/cpp/gpl/readsb/aircraft.c:140-150 | exactly the entries of aircraft that are not active are cleared |
| AircraftTable.Table.QuickRemove | bridge/src/main/cpp/gpl/readsb/aircraft.c:152-159 | exactly the entries of the aircraft are cleared; for the address of empty places nothing that is cached |
| AircraftTable.Table.QuickAdd | bridge/src/main/cpp/gpl/readsb/aircraft.c:160-175 | the aircraft takes an empty place of its stride, or nothing changes when it is full; an aircraft with the address of empty places is never cached |
| AircraftTable.Table.SizeSettles | bridge/src/main/cpp/gpl/readsb/aircraft.c:177-184 | the cache keeps its size while a quarter to five eighths of it are needed, moves towards that by one bit otherwise, and does not flap |
| AircraftTable.Table.QuickInit | bridge/src/main/cpp/gpl/readsb/aircraft.c:177-203 | the cache follows the number of active aircraft; a resized cache is empty, another one loses exactly the entries of inactive aircraft when maintenance is due |
| AircraftTable.Table.AircraftGet | bridge/src/main/cpp/gpl/readsb/aircraft.c:209-225 | lookup through the cache equals the plain chain lookup, with one exception: for the address of empty places it gives the pointer of the first empty place of the stride, which is null or wild; what is found is in the cache afterwards unless its stride is full |
| AircraftTable.WildLookup | bridge/src/main/cpp/gpl/readsb/aircraft.c:116-127 | right after the start the lookup of 0xffffffff gives a wild pointer |
| AircraftTable.Table.AllocAircraft | bridge/src/main/cpp/gpl/readsb/aircraft.c:25-76 | the slot handed out is neither live nor free, the latest freed slot if there is one; memory grows only when there is none, and no lookup changes |
| AircraftTable.Table.FreeAircraft | bridge/src/main/cpp/gpl/readsb/aircraft.c:227-246 | the slot is cleared, leaves the cache and becomes the head of the free list |
| AircraftTable.Table.AircraftCreate | bridge/src/main/cpp/gpl/readsb/aircraft.c:252-293 | the address is found at the slot returned, which was not live unless it was already the address's, and no other lookup changes; the table stays right if and only if this is not a second aircraft with the address of empty places, and for that address a wild pointer may be all there is |
| AircraftTable.Table.Reap | bridge/src/main/cpp/gpl/readsb/track.c:3128-3132 | exactly one aircraft leaves its chain for the free list; live, free and unused slots still partition the memory |
| AircraftTable.Table.RemoveStale | bridge/src/main/cpp/gpl/readsb/track.c:3107-3141 | of a bucket exactly the aircraft that are not stale stay, in order, and every address finds what it found before unless that is gone |
| ApiIndex.FindLonRange | bridge/src/main/cpp/gpl/readsb/api.c:63-112 | of a list sorted by longitude exactly the entries with from <= lon <= to |
| ApiIndex.FindInBox | bridge/src/main/cpp/gpl/readsb/api.c:256-286 | each entry in the box once and no other entry, also for boxes across the antimeridian |
| ApiIndex.LastWithIsLast | bridge/src/main/cpp/gpl/readsb/api.c:339-357 | the entry that a chain built by prepending finds first is the last of the list with the address |
| ApiIndex.ApiBuffer.ApiGenerateJson | bridge/src/main/cpp/gpl/readsb/api.c:874-938 | the hash chains hold the entries of each bucket, latest first, and every offset points at exactly the text of its entry |
| ApiIndex.ApiBuffer.FindHex | bridge/src/main/cpp/gpl/readsb/api.c:339-357 | the chain lookup equals a linear search for the last entry with the address |
| ApiIndex.ApiBuffer.FindHexList | bridge/src/main/cpp/gpl/readsb/api.c:339-357 | the matches are those of a linear search for each address in turn |

## Left out

What is assumed of library code and of the surroundings:

- `qsort` and `bsearch` are stood in for by a sort and a search of their own; only the contracts that the C library promises are used.
- zstd is an abstract lossless codec whose frames can be concatenated, with a monotone bound for the compressed size; it fails to compress exactly when the result does not fit. Its other error paths, contexts and levels are not modelled.
- Doubles are exact reals in everything about positions, so rounding is not modelled; the square root in the magnitude of a sample is an exact integer root.
- `addrHash` and the other address hashes are an arbitrary mixing function followed by the final mask.
- The clock, writing schedules, statistics, logging and allocation failure.
- Memory is a sequence of slots with indices for pointers in `AircraftTable`; creation is modelled for one thread at a time.

Where the model is narrower than a cited function:

- RemoveDuplicates: the inner loop at crc.c:246 looks one entry past the used part of the table when the last entries collide; the model stops at the last entry.
- PrepareErrorTable: the debugging output and checks under CRCDEBUG are left out.
- DecodeModesMessage: covers the checksum, repair and address part with `decode_all` and `net_verbatim` off; the payload fields, Comm-B and the source and address type fields are left out.
- ScoreModesMessage: the scoring of DF24 and later, which is switched off in the source, is left out.
- KnownWasAnnounced: runs use the ring that the bridge links in place of icao_filter.c; the hash filter has its own run properties in `IcaoFilter`.
- IcaoFilterAdd: the address 0xffffffff marks empty slots and is never stored; adding it still counts as a filled slot, as in the source.
- AirborneRoundTrip: latitudes and longitudes of the two frames differ by less than the bound that the source's zone arithmetic needs, which is stated in the contract.
- SurfaceRoundTrip: the result is the encoded position rather than a distance to the original one, and the references are less than 45 degrees from the encoded coordinates.
- CheckTraceCache: trace records are immutable except for the leg marker and have strictly increasing timestamps; with repeated timestamps the search by time would find another entry.
- RecentTraceJson: the end of the output buffer of generateTraceJson, and the parts of the JSON around the points, are left out.
- CompressChunk: fourStates are flat sequences of points, and `trace_chunk_overall_bytes`, which only a statistic reads, is left out (recompressStateChunk does not adjust it).
- TracePrune: `trace_chunk_overall_bytes` is left out here as well.
- SetTrace: the source has one fourState of room behind its points, because the copy at the end includes the buffered slot.
- StorePosition: which positions are saved, the leg marking and the splice before landing are left out; the splice changes `trace_current_len` without `trace_len`, so the length equation is not kept there.
- TraceMaintenance: writing of files and its scheduling, and the release of the trace cache, are left out.
- SaveBlob: struct layouts are abstract fixed-size codecs; files with another struct size, corrupt files and chunks of a wrong size are read as a failure; the two length fields in front of a frame are left out, and so is a chunk size that another thread raises during the save. The traceLast of an aircraft without points is not saved, as in the source.
- AircraftRoundTrip: load_aircraft ends with the same return value after success and failure, and its caller ignores it, so the model has the effect only; what loading does to globe lists, validities and clamped times, and the maintenance at its end, is left out.
- ReallocationIsExclusive: `write_mutex` is a semaphore, because readers lock and unlock it for each other; ca_remove changes list elements beside readers, which look for empty slots.
- SetGlobeIndex: with `json_globe_index` off the function does nothing, which is not modelled.
- FreeAircraft: the branch with `quickFree`, the removal from the lists of aircraft and the trace cleanup are left out; the lists and the trace have their own models.
- ProcessIq: a window is scanned once one more sample than its 240 has arrived; messages in the rescanned tail may be reported again, so only coverage is claimed. Formatting the messages is left out.
- ProcessReadsbDemodulator: the limit on messages per block of the adapter is left out, and with it the messages beyond the limit; the gain counters and the power are not passed on.
- Demodulate2400: noise power and statistics other than the gain counters and the signal power are left out; scoring and decoding are parameters that may change from one attempt to the next.
- FindInBox: the filters on identifiers, and circle search, are left out.
- ApiGenerateJson: growth of the buffer, the registration and callsign chains and the binary output are left out.

Parts of the program that are not modelled: USB, JNI, sockets and HTTP; SDR drivers; Mode A/C;
altitude and movement tables; greatcircle, geomag and unit conversion; the double buffering of
api.c.
