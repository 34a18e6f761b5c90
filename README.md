# UniqueID in Dafny

A model of the `UniqueID` Swift package. The package provides a 16-octet
universally unique identifier following RFC 9562. It covers:

- the value itself: equality, ordering, the zero identifier, the `version` view, and conversion from and to byte sequences;
- the text form: serialisation to 32 hex digits, with or without the 8-4-4-4-12 hyphens, in either case; and the tolerant parser `init?(utf8:)`, which accepts braces and runs of hyphens before any octet;
- version-4 (random) identifiers, with the random number generator replaced by the 16 octets it would have produced;
- version-6 (time-ordered) identifiers:
  - the encoder;
  - the generator state shared by all callers, whose sequence is bumped when the clock has not moved on;
  - the conversion between Unix and Gregorian 100 ns ticks;
- the `TimeOrdered` components view, which decodes a version-6 identifier's timestamp, sequence and node.

Octets are `bv8`, the 16-bit clock sequence is `bv16`, and 64-bit timestamps and nodes are `bv64`. This way the source's wrapping operators (`&+`, `&-`, `&<<`, `&>>`, `&*`) are the bit-vector operators. The modules are:

- `Base`: the integer types and `Option`.
- `Layout`: `UniqueID.swift`.
- `Conversion`: `Conversion.swift`, the parser.
- `Serialization`: `Serialization.swift`.
- `TextForm`: how the parser and the serialiser fit together, plus `description` and `Codable`.
- `V4`: `v4.swift`.
- `V6`: `v6.swift`.
- `Components`: `Components.swift`.

Where the code departs from RFC 9562's 8-4-4-4-12 text form, from an exactly 16-byte input to `init?(bytes:)`, or from the rising order the version 6 generator is meant to give (within one clock tick, and when the clock steps back), the model follows the code:

- The parser skips any run of hyphens before every octet, including before the first octet and several in a row. It does not check that the hyphens sit at the 8-4-4-4-12 positions (`TextForm.ParseAnyHyphens`). A hyphen between the two digits of one octet is still rejected (`TextForm.HyphenInsideOctetRejected`).
- `init?(bytes:)` accepts a sequence longer than 16 bytes and keeps its first 16 (`Layout.OverlongBytesAccepted`).
- The generator compares readings to the nanosecond but encodes them in 100 ns ticks. Two readings in one tick get the same tick count. A reading equal to the stored one, or earlier than it, bumps the sequence. But a reading that is strictly later and still in the same tick keeps the sequence, so with the same node the two calls return the same identifier (`V6.SameTickSameIdentifier`). The step that compares tick counts instead is modelled beside it (`V6.GeneratorState.NextInTicks`), with its ordering proved (see "## Findings").
- A reading earlier than the stored one bumps the sequence, but the identifier still carries that earlier reading, and octets 0-7 (the timestamp) decide the order before octets 8-9 (the sequence). So after the clock steps back, the new identifier sorts before the last one (`V6.RollbackSortsFirst`). The step that keeps the later of the stored and new timestamps is modelled beside it (`V6.LatestStep`), with its ordering proved (see "## Findings").
- The sequence is seeded with a 14-bit draw that may be as high as 0x3FFF, and the encoder keeps only 14 bits of it. So the encoded sequence can wrap to 0 after the first bump, and calls that read the same clock value then stop rising (see "## Findings").
- The generator stores the last reading, not the latest one. So a clock that stepped back and then partly recovered does not bump the sequence (`V6.StoredReadingIsLastNotLatest`).

## Model

| member | source | states |
|---|---|---|
| Layout.ElementsEqualIsEquality | Sources/UniqueID/UniqueID.swift:68 | `elementsEqual` holds exactly when the two octet sequences are equal |
| Layout.EqualIffOctetsEqual | Sources/UniqueID/UniqueID.swift:65-71 | `==` holds exactly when all 16 octets agree pairwise, i.e. exactly when the values are equal |
| Layout.PrecedesAtDifference | Sources/UniqueID/UniqueID.swift:79 | a first difference at k where the left octet is smaller makes `lexicographicallyPrecedes` hold |
| Layout.PrecedesHasDifference | Sources/UniqueID/UniqueID.swift:79 | on equal lengths, precedence yields a position k: equal before k, smaller at k |
| Layout.LexPrecedesAt | Sources/UniqueID/UniqueID.swift:79 | on equal lengths, precedence holds iff such a first-difference position exists (both directions) |
| Layout.LessIffFirstDifference | Sources/UniqueID/UniqueID.swift:76-82 | `<` on identifiers is lexicographic order over octets 0..15 |
| Layout.LexIrreflexive | Sources/UniqueID/UniqueID.swift:79 | no sequence precedes itself |
| Layout.LexTransitive | Sources/UniqueID/UniqueID.swift:79 | precedence is transitive |
| Layout.LexTrichotomy | Sources/UniqueID/UniqueID.swift:79 | two sequences are equal or one precedes the other, and never both precede each other |
| Layout.LessIsStrictTotalOrder | Sources/UniqueID/UniqueID.swift:65-82 | `<` is irreflexive, transitive, total and asymmetric, and consistent with `==` |
| Layout.Version | Sources/UniqueID/UniqueID.swift:92-95 | a version exists iff the top two bits of octet 8 are `10`; it is the high nibble of octet 6, in 0..15 |
| Layout.ZeroHasNoVersion | Sources/UniqueID/UniqueID.swift:87-95 | `zero` is all-zero octets and has no version |
| Layout.FromBytes | Sources/UniqueID/UniqueID.swift:100-110 | the copy into the zeroed buffer succeeds iff at least 16 bytes are supplied; octet i is byte i |
| Layout.BytesRoundTrip | Sources/UniqueID/UniqueID.swift:100-121 | `bytes` has 16 entries, entry i is octet i, and `init?(bytes:)` of it gives back the identifier |
| Layout.OverlongBytesAccepted | Sources/UniqueID/UniqueID.swift:100-110 | more than 16 bytes are accepted and only the first 16 are kept |
| Conversion.HexTableEntry | Sources/UniqueID/Conversion.swift:37-66 | each entry of `hex_table` is its digit's value for a hex digit and `DC` (-1) otherwise |
| Conversion.AsciiToHexAsWritten | Sources/UniqueID/Conversion.swift:70-73 | on the bytes the table covers, the lookup succeeds exactly on hex digits and yields the digit's value |
| Conversion.HexTableMissesLastByte | Sources/UniqueID/Conversion.swift:37-66 | the table has 255 entries, so the index for byte 0xFF is out of range |
| Conversion.FullHexTableEntry | Sources/UniqueID/Conversion.swift:37-66 | the table with its 256th entry restored has every entry right, byte 0xFF included |
| Conversion.AsciiToHex | Sources/UniqueID/Conversion.swift:68-73 | a successful lookup yields a value below 16 |
| Conversion.AsciiToHexIsFullTableLookup | Sources/UniqueID/Conversion.swift:70-73 | the corrected `asciiToHex` is the negative-means-nil lookup in the 256-entry table |
| Conversion.AsciiToHexExtendsAsWritten | Sources/UniqueID/Conversion.swift:70-73 | it agrees with the source's lookup on every byte the 255-entry table covers |
| Conversion.SkipHyphens | Sources/UniqueID/Conversion.swift:20-22 | the result is no longer than the input and does not start with a hyphen |
| Conversion.ParseByteReadsTwoDigits | Sources/UniqueID/Conversion.swift:77-83 | `parseByte` succeeds iff two hex digits come first; the octet is high digit times 16 plus low digit |
| Conversion.ParseOctets | Sources/UniqueID/Conversion.swift:19-27 | a successful read of n octets yields exactly n octets |
| Conversion.ParseByteAt | Sources/UniqueID/Conversion.swift:77-83 | the index-moving `parseByte(at:)` yields the octet at `i`; on success it advances by two |
| Conversion.ParseOctetsAdvance | Sources/UniqueID/Conversion.swift:19-27 | the loop step in terms of indices: a failed octet read fails the whole parse; otherwise the parse continues two characters on |
| Conversion.SkipHyphensAt | Sources/UniqueID/Conversion.swift:20-22 | the `while` loop moves `i` to the first character after the run of hyphens |
| Conversion.ReadOctet | Sources/UniqueID/Conversion.swift:20-26 | one pass of the `for` body: hyphens skipped, then one octet, or failure of the whole remaining parse |
| Conversion.ParsedOneMore | Sources/UniqueID/Conversion.swift:19-27 | the loop invariant survives storing one more octet |
| Conversion.ParseStopped | Sources/UniqueID/Conversion.swift:23-25 | an early `return false` means the input is not an identifier |
| Conversion.ParseFinished | Sources/UniqueID/Conversion.swift:28 | after 16 octets, success is exactly `i == endIndex`, and the octets are the ones stored |
| Conversion.ParseInto | Sources/UniqueID/Conversion.swift:16-29 | the closure succeeds iff the digits are 16 octets with nothing after them, and then leaves those octets in the buffer |
| Conversion.InitUTF8 | Sources/UniqueID/Conversion.swift:3-32 | `init?(utf8:)` computes the specification `Parse`: brace trimming, then the digits |
| Conversion.LowerDigitKeepsMeaning | Sources/UniqueID/Conversion.swift:37-73 | lowering 'A'-'F' keeps the value `asciiToHex` gives every byte, and no other byte becomes or stops being a hyphen or a brace |
| Conversion.SkipHyphensFold | Sources/UniqueID/Conversion.swift:20-22 | skipping hyphens in the lowered text leaves the lowered rest of the original |
| Conversion.ParseByteFold | Sources/UniqueID/Conversion.swift:77-83 | `parseByte` reads the same octet, or fails the same way, whatever the case of the digits |
| Conversion.ParseOctetsFold | Sources/UniqueID/Conversion.swift:19-27 | reading octets from lowered text reads the same octets and leaves the lowered rest |
| Conversion.TrimBracesFold | Sources/UniqueID/Conversion.swift:9-14 | brace trimming succeeds on the lowered text iff it does on the original, and yields the lowered inner text |
| Conversion.ParseIgnoresCase | Sources/UniqueID/Conversion.swift:3-32 | for every input, `init?(utf8:)` gives the same result once 'A'-'F' are lowered: digits of either case, mixed freely, read the same |
| Serialization.DigitTable | Sources/UniqueID/Serialization.swift:58 | each digit table has 16 entries |
| Serialization.Hex | Sources/UniqueID/Serialization.swift:20-50 | the hex text of n octets is 2n characters |
| Serialization.HexAppend | Sources/UniqueID/Serialization.swift:20-50 | the hex text of two runs of octets is the two texts in a row |
| Serialization.HexAt | Sources/UniqueID/Serialization.swift:57-73 | octet j is at characters 2j and 2j+1: high nibble first |
| Serialization.Through | Sources/UniqueID/Serialization.swift:16-50 | the text through group g has twice the octets of groups 0..g, plus the separators before it |
| Serialization.TextLength | Sources/UniqueID/Serialization.swift:5-7 | the text is exactly `capacity` characters: 32, or 36 with separators |
| Serialization.GroupOf | Sources/UniqueID/Serialization.swift:16-50 | every octet belongs to one of the five groups 0..<4, 4..<6, 6..<8, 8..<10 and 10..<16 |
| Serialization.Before | Sources/UniqueID/Serialization.swift:16-50 | the text before group g, followed by the group's digits, is the text through g |
| Serialization.ThroughExtends | Sources/UniqueID/Serialization.swift:16-50 | the text through a group is a prefix of the text through any later group |
| Serialization.TextOctetAt | Sources/UniqueID/Serialization.swift:16-50 | octet k is written at its position as two digits of the selected case, high nibble first |
| Serialization.HexDigitsOnly | Sources/UniqueID/Serialization.swift:57-73 | the digits written come only from the selected case's table |
| Serialization.DigitsBetweenSeparators | Sources/UniqueID/Serialization.swift:16-50 | no position inside a group is a separator position |
| Serialization.ThroughCharacters | Sources/UniqueID/Serialization.swift:16-50 | each partial text has hyphens exactly at the separator positions and digits of the selected case elsewhere |
| Serialization.TextCharacters | Sources/UniqueID/Serialization.swift:12-53 | the full text has hyphens exactly at positions 8, 13, 18 and 23 when separators are on, and a digit everywhere else |
| Serialization.WriteHexUppercase | Sources/UniqueID/Serialization.swift:57-64 | writes the two uppercase digits at `i` and `i + 1`, touches nothing else, returns `i + 2` |
| Serialization.WriteHexLowercase | Sources/UniqueID/Serialization.swift:66-73 | the same with the lowercase table |
| Serialization.WriteHex | Sources/UniqueID/Serialization.swift:75-77 | writes the octet's pair in the chosen case, leaves the rest of the buffer unchanged |
| Serialization.WriteDash | Sources/UniqueID/Serialization.swift:79-82 | writes a hyphen at `i`, leaves the rest unchanged, returns `i + 1` |
| Serialization.WriteGroup | Sources/UniqueID/Serialization.swift:20-22 | one `for octetPosition` loop writes the hex of octets from..<to at `i`, and nothing else |
| Serialization.WriteSection | Sources/UniqueID/Serialization.swift:23-50 | the optional dash and the next group extend the buffer's prefix from the text through g-1 to the text through g |
| Serialization.WriteFirstGroup | Sources/UniqueID/Serialization.swift:19-22 | the first loop writes the text through group 0 |
| Serialization.Serialize | Sources/UniqueID/Serialization.swift:12-53 | `serialize(into:)` fills the whole buffer with the text and returns its length |
| Serialization.Serialized | Sources/UniqueID/Serialization.swift:2-10 | `serialized` yields the text for the chosen case and separators |
| TextForm.TableDigit | Sources/UniqueID/Conversion.swift:37-73 | every digit the serialiser writes is a hex digit to the parser, and it stands for its index |
| TextForm.PairDigits | Sources/UniqueID/Serialization.swift:57-73 | the two digits written for an octet are hex digits standing for its high and low nibble |
| TextForm.ParseHexPair | Sources/UniqueID/Conversion.swift:77-83 | `parseByte` reads back the octet `writeHex` wrote, in either case |
| TextForm.SkipDashes | Sources/UniqueID/Conversion.swift:20-22 | the hyphen loop skips any run of hyphens in front of a non-hyphen |
| TextForm.ParseSpacedOctet | Sources/UniqueID/Conversion.swift:19-27 | one octet behind any run of hyphens is read in one loop pass |
| TextForm.ReadsOctet | Sources/UniqueID/Conversion.swift:19-27 | such an octet reads as itself, whatever follows |
| TextForm.ReadsSpaced | Sources/UniqueID/Conversion.swift:19-27 | octets each preceded by any number of hyphens read as those octets |
| TextForm.ReadsHex | Sources/UniqueID/Conversion.swift:19-27 | hex digits without hyphens read as their octets |
| TextForm.ParseAfterSeparator | Sources/UniqueID/Conversion.swift:20-22 | a separator in front of an octet is skipped |
| TextForm.ReadsConcat | Sources/UniqueID/Conversion.swift:19-27 | two texts in a row read as their octets in a row |
| TextForm.ReadsThrough | Sources/UniqueID/Serialization.swift:16-50 | the serialised text through group g reads as the octets of groups 0..g |
| TextForm.ParseTextPrefix | Sources/UniqueID/Conversion.swift:19-27 | reading 16 octets from the text, with anything after it, yields the identifier's octets and leaves the rest |
| TextForm.TextStartsWithDigit | Sources/UniqueID/Serialization.swift:19-22 | the text starts with a hex digit, never with a brace |
| TextForm.ParseSerialized | Sources/UniqueID/Conversion.swift:3-32 | every form `serialized` produces parses back to the identifier |
| TextForm.MixedCaseParses | Sources/UniqueID/Conversion.swift:3-32 | text whose lowered form is the lower-case serialisation of an identifier, in any mix of cases, parses to that identifier |
| TextForm.ParseBraced | Sources/UniqueID/Conversion.swift:8-14 | the same text between curly braces parses back too |
| TextForm.ParseAnyHyphens | Sources/UniqueID/Conversion.swift:19-27 | any number of hyphens before any octet is accepted |
| TextForm.TrailingInputRejected | Sources/UniqueID/Conversion.swift:28 | anything after the last octet, a trailing hyphen included, is rejected |
| TextForm.HyphenInsideOctetRejected | Sources/UniqueID/Conversion.swift:77-83 | a hyphen between the two digits of any octet is rejected |
| TextForm.SplitOctetRejected | Sources/UniqueID/Conversion.swift:77-83 | an octet whose two digits are split by a hyphen does not parse |
| TextForm.ReadsThenRejected | Sources/UniqueID/Conversion.swift:19-27 | if the text after a readable prefix fails to parse, the whole text fails |
| TextForm.UnmatchedBraceRejected | Sources/UniqueID/Conversion.swift:9-12 | a leading `{` without a trailing `}` is rejected |
| TextForm.ParseOctetsConsumes | Sources/UniqueID/Conversion.swift:19-27 | a successful read of n octets consumes at least 2n characters |
| TextForm.ShortInputRejected | Sources/UniqueID/Conversion.swift:3-32 | fewer than 32 characters never make an identifier |
| TextForm.Description | Sources/UniqueID/UniqueID.swift:33-35 | `description` is the lowercase text with separators, 36 characters |
| TextForm.FromDescription | Sources/UniqueID/UniqueID.swift:17-28 | `init?(_:)` is the UTF-8 parser |
| TextForm.CodableRoundTrip | Sources/UniqueID/UniqueID.swift:40-53 | `init(from:)` of what `encode(to:)` wrote gives back the identifier, never the decoding error |
| V4.Stamp | Sources/UniqueID/v4.swift:23-28 | octet 6 gets version nibble 4, octet 8 gets variant `10`, and every other octet is the random input |
| V4.Random | Sources/UniqueID/v4.swift:11-30 | `random(using:)` copies the draws into the storage and stamps it |
| V4.StampHasVersion4 | Sources/UniqueID/v4.swift:11-30 | every random identifier reports version 4 |
| V4.StampIdempotent | Sources/UniqueID/v4.swift:25-28 | stamping a stamped identifier changes nothing |
| V4.StampSameIffKeptBitsAgree | Sources/UniqueID/v4.swift:25-28 | two draws give the same identifier iff they agree on every bit stamping keeps (122 random bits) |
| V4.KeptBitsAgreeSameStamp | Sources/UniqueID/v4.swift:25-28 | draws that agree on the kept bits give the same identifier |
| V4.SameStampKeptBitsAgree | Sources/UniqueID/v4.swift:25-28 | draws that give the same identifier agree on the kept bits |
| V4.VersionNibbleKept | Sources/UniqueID/v4.swift:25 | an octet 6 that already carries version 4 is unchanged |
| V4.VariantBitsKept | Sources/UniqueID/v4.swift:28 | an octet 8 that already carries variant `10` is unchanged |
| V4.StampFixedIffVersion4 | Sources/UniqueID/v4.swift:11-30 | an identifier is its own stamp exactly when it is a version-4 one |
| V6.BigEndian64 | Sources/UniqueID/v6.swift:50 | `.bigEndian` of a 64-bit value is 8 octets |
| V6.BigEndian16 | Sources/UniqueID/v6.swift:49 | `.bigEndian` of a 16-bit value is 2 octets |
| V6.TimestampOctets | Sources/UniqueID/v6.swift:42-47 | octets 0..7 are bits 59..12 of the timestamp, then version 6 over bits 11..8, then bits 7..0 |
| V6.TimeOrdered | Sources/UniqueID/v6.swift:41-65 | octet by octet: timestamp bits 59..12 in octets 0..5, version 6 and bits 11..8 in octet 6, bits 7..0 in octet 7, variant `10` and sequence bits 13..0 in octets 8..9, node bits 47..0 in octets 10..15 |
| V6.EncodeTimeOrdered | Sources/UniqueID/v6.swift:41-65 | `timeOrdered(rawTimestamp:sequence:node:)` computes that encoding |
| V6.TimestampBytes | Sources/UniqueID/v6.swift:42-47 | the in-place rewrite of octets 6 and 7 yields the timestamp octets with the version inserted |
| V6.Store | Sources/UniqueID/v6.swift:52-64 | the storage is the 8 timestamp octets, the 2 sequence octets and the last 6 node octets |
| V6.TimeOrderedHasVersion6 | Sources/UniqueID/v6.swift:41-65 | every encoded identifier reports version 6 |
| V6.TimeOrderedDropsHighBits | Sources/UniqueID/v6.swift:41-65 | only the low 60 timestamp bits, the low 14 sequence bits and the low 48 node bits are encoded |
| V6.RandomNode | Sources/UniqueID/v6.swift:36 | the random node has the multicast bit set and every other bit drawn |
| V6.RandomNodeIsMulticast | Sources/UniqueID/v6.swift:34-37 | the forced bit is the low bit of octet 10, the IEEE 802 multicast bit |
| V6.TimeOffsetIsGregorianGap | Sources/UniqueID/v6.swift:89 | `timeOffset` is the 141427 days from 1582-10-15 to 1970-01-01, in 100 ns ticks |
| V6.TimestampConversionsRoundTrip | Sources/UniqueID/v6.swift:92-99 | `unix_to_uuid_timestamp` and `uuid_timestamp_to_unix` are inverse on all 64-bit values |
| V6.GeneratorState.constructor | Sources/UniqueID/v6.swift:12-18 | the state starts at reading 0 with the sequence seeded from a draw masked to 14 bits |
| V6.GeneratorState.Next | Sources/UniqueID/v6.swift:71-77 | the locked step bumps the sequence iff the stored reading is not earlier than the new one, stores the new reading and returns the sequence |
| V6.Generate | Sources/UniqueID/v6.swift:68-85 | `timeOrdered(node:)`: one locked step, then the reading's tick count, masked to 60 bits and moved to the Gregorian epoch, is encoded with the returned sequence |
| V6.GenerateRandom | Sources/UniqueID/v6.swift:34-38 | `timeOrdered(using:)` is `timeOrdered(node:)` with the random multicast node |
| V6.Value16Succ | Sources/UniqueID/v6.swift:73 | bv16/int bridge fact: `&+= 1` is +1 modulo 2^16 |
| V6.Value16Low14 | Sources/UniqueID/v6.swift:49 | bv16/int bridge fact: masking with 0x3FFF keeps the value modulo 2^14 |
| V6.NextSequenceValue | Sources/UniqueID/v6.swift:71-77 | the locked step, read as integers, adds 1 modulo 2^16 exactly when it bumps |
| V6.SequenceAfter | Sources/UniqueID/v6.swift:71-77 | the sequence after any run of calls stays in 0..2^16-1 |
| V6.BumpCount | Sources/UniqueID/v6.swift:72-74 | calls i..j-1 bump at most j - i times |
| V6.SequenceAdvancesByBumps | Sources/UniqueID/v6.swift:71-77 | over calls i..j-1 the sequence advances by the number of bumps, modulo 2^16 |
| V6.UnbumpedRunRises | Sources/UniqueID/v6.swift:72-75 | in a run of calls without a bump, the readings rise strictly |
| V6.LowBitsMove | Sources/UniqueID/v6.swift:49 | bv16/int bridge fact: advancing by 1..2^14-1 modulo 2^16 changes the 14 bits the encoder keeps |
| V6.ModOfMod | Sources/UniqueID/v6.swift:49 | bv16/int bridge fact: reducing modulo 2^16 before 2^14 changes nothing |
| V6.SameInstantDistinctSequences | Sources/UniqueID/v6.swift:71-77 | two calls reading the same instant fewer than 2^14 calls apart get sequences that differ in their low 14 bits |
| V6.DistinctSequencesDistinctIdentifiers | Sources/UniqueID/v6.swift:41-65 | sequences that differ in their low 14 bits give different identifiers |
| V6.SequenceWraps | Sources/UniqueID/v6.swift:49-73 | the stored sequence wraps from 0xFFFF to 0; the 14 encoded bits advance by one modulo 2^14 |
| V6.StoredReadingIsLastNotLatest | Sources/UniqueID/v6.swift:72-75 | the reading stored is the last one, so after 10 s and 5 s, a reading of 7 s does not bump |
| V6.SameTickSameIdentifier | Sources/UniqueID/v6.swift:68-84 | the readings (1 s, 0 ns) and then (1 s, 50 ns) get the same tick count and the same sequence, so for any seed and node the two calls return the same identifier |
| V6.GeneratorState.NextInTicks | Sources/UniqueID/v6.swift:71-77 | the critical section with the intended step: it bumps iff the stored reading's tick count is not below the new one's, stores the new reading and returns the sequence |
| V6.GenerateInTicks | Sources/UniqueID/v6.swift:68-85 | `timeOrdered(node:)` with the tick-count step: the state is fully given, and the identifier encodes the reading's tick count and the new sequence |
| V6.TickNextSequenceValue | Sources/UniqueID/v6.swift:71-74 | the tick-count step, read as integers, bumps modulo 2^16 exactly when the new tick count is not above the stored one |
| V6.TickSequenceWordValue | Sources/UniqueID/v6.swift:71-77 | over a run of tick-count steps, the stored 16-bit sequence equals its integer account |
| V6.SameTickBumps | Sources/UniqueID/v6.swift:71-74 | with the tick-count step, a call in the previous call's tick bumps, and the kept bits rise by one below 0x3FFF |
| V6.SameTickAdvance | Sources/UniqueID/v6.swift:71-77 | with the tick-count step, over calls c1..c2 in one tick the kept bits rise by c2 - c1 without wrapping |
| V6.SameTickRiseInSequence | Sources/UniqueID/v6.swift:71-77 | with the tick-count step, the sequences of calls c1 < c2 in one tick rise modulo 2^14 |
| V6.CallsOfOneTick | Sources/UniqueID/v6.swift:68-84 | two calls with one tick count are ordered by their sequences modulo 2^14, in both directions |
| V6.SameTickReadingsRise | Sources/UniqueID/v6.swift:68-84 | with the tick-count step, calls c1 < c2 whose readings, and all readings between, share one tick hand out strictly rising identifiers while the kept bits do not wrap |
| V6.SameTickRisesWithTickStep | Sources/UniqueID/v6.swift:68-84 | with the tick-count step, the readings (1 s, 0 ns) and (1 s, 50 ns) give a first identifier equal to the as-written first one and a second that sorts after it |
| V6.OrderFollowsSequence | Sources/UniqueID/v6.swift:41-65 | with the same timestamp and node, one identifier sorts before the other iff its sequence is smaller modulo 2^14 (both directions) |
| V6.NotSmallerNotFirst | Sources/UniqueID/v6.swift:41-65 | a sequence not smaller modulo 2^14 never gives the smaller identifier |
| V6.SmallerSequenceFirst | Sources/UniqueID/v6.swift:42-61 | smaller kept sequence bits give the smaller identifier: octets 0-7 agree and octets 8-9 decide |
| V6.SameKeptSequenceSameIdentifier | Sources/UniqueID/v6.swift:49 | sequences with the same 14 kept bits give the same identifier |
| V6.PrecedesAtSequence | Sources/UniqueID/UniqueID.swift:79 | sixteen octets that agree on octets 0-7 are ordered by octets 8 and 9 |
| V6.KeptLess | Sources/UniqueID/v6.swift:49 | bv16/int bridge fact: a sequence smaller modulo 2^14 has smaller masked bits |
| V6.KeptEqual | Sources/UniqueID/v6.swift:49 | bv16/int bridge fact: sequences equal modulo 2^14 have equal masked bits |
| V6.LessFromInt | Sources/UniqueID/v6.swift:49 | bv16/int bridge fact: 16-bit values are ordered as their integer values are |
| V6.EqualFromInt | Sources/UniqueID/v6.swift:49 | bv16/int bridge fact: 16-bit values with equal integer values are equal |
| V6.SequenceWordValue | Sources/UniqueID/v6.swift:71-77 | the 16-bit sequence the state holds after k calls has the value `SequenceAfter` gives it |
| V6.SameReadingOrder | Sources/UniqueID/v6.swift:68-84 | identifiers from one clock reading and one node are ordered by their sequences modulo 2^14 (both directions) |
| V6.RepeatedReadingBumps | Sources/UniqueID/v6.swift:71-77 | a call reading the same value as the call before bumps the sequence; below 0x3FFF modulo 2^14, the kept bits rise by one |
| V6.RepeatedReadingsAdvance | Sources/UniqueID/v6.swift:71-77 | over calls c1..c2 reading one value, the kept bits rise by c2 - c1 while they do not wrap |
| V6.RepeatedReadingsRiseInSequence | Sources/UniqueID/v6.swift:71-77 | the stored sequences of such calls c1 < c2 rise modulo 2^14 |
| V6.CallsOfOneReading | Sources/UniqueID/v6.swift:68-84 | two calls that read one value are ordered by the sequences they were handed, modulo 2^14 (both directions) |
| V6.RepeatedReadingsRise | Sources/UniqueID/v6.swift:68-84 | calls c1 < c2 reading one clock value, with every call between them reading it too, hand out strictly rising identifiers while the kept bits do not wrap |
| V6.SecondRepeatedReadingSortsFirst | Sources/UniqueID/v6.swift:41-65 | sequence 0x4000 (kept bits 0) sorts before sequence 0x3FFF for the same timestamp and node |
| V6.SeededAtTopOfRange | Sources/UniqueID/v6.swift:12-18 | a generator seeded at 0x3FFF and called twice with one reading hands out 0x3FFF, then 0x4000, and the second identifier sorts before the first |
| V6.TimestampFieldsOrder | Sources/UniqueID/v6.swift:42-47 | for timestamps t1 < t2 < 2^60, the eight octet values cut from the bits (bits 59..12, version 6 over bits 11..8, bits 7..0) compare lexicographically in t1's favour |
| V6.TimestampOctetsOrder | Sources/UniqueID/v6.swift:42-47 | the timestamp octets of t1 < t2 < 2^60 decide in t1's favour within their first eight octets |
| V6.LeadPrecedesFirst | Sources/UniqueID/UniqueID.swift:76-81 | octet sequences whose first eight octets decide in one's favour precede in `lexicographicallyPrecedes` |
| V6.TimestampOrder | Sources/UniqueID/v6.swift:41-65 | identifiers with timestamps t1 < t2 < 2^60 are ordered by timestamp, whatever their sequences and nodes |
| V6.LessBoundsTimestamp | Sources/UniqueID/v6.swift:41-65 | conversely, for timestamps below 2^60, the identifier that sorts first never carries the later timestamp |
| V6.LessAsymmetric | Sources/UniqueID/UniqueID.swift:76-81 | of two identifiers, at most one sorts before the other |
| V6.RollbackSortsFirst | Sources/UniqueID/v6.swift:68-84 | readings of 10 s and then 5 s: the second call bumps the sequence to seed + 1, yet its identifier sorts before the first call's |
| V6.RollbackBumps | Sources/UniqueID/v6.swift:71-77 | in that run the first call keeps the seed and the second bumps it by one |
| V6.RollbackReadings | Sources/UniqueID/v6.swift:79-83 | readings of 5 s and 10 s become `timeOffset` plus 5 * 10^7 and plus 10^8 ticks, both below 2^60 |
| V6.LatestStep | Sources/UniqueID/v6.swift:71-77 | the designed step keeps the later of the stored and the new timestamp |
| V6.LatestStepRises | Sources/UniqueID/v6.swift:68-84 | with the designed step, the next identifier sorts after the last one whether the clock advanced, stood still or stepped back, as long as the kept sequence bits do not wrap |
| Components.FromUniqueID | Sources/UniqueID/Components.swift:27-30 | `TimeOrdered.init?` accepts exactly the version-6 identifiers, unchanged |
| Components.EncodedAreTimeOrdered | Sources/UniqueID/Components.swift:27-30 | every identifier the version-6 encoder produces is accepted |
| Components.RandomAreNotTimeOrdered | Sources/UniqueID/Components.swift:27-30 | no version-4 identifier is accepted |
| Components.RawTimestamp | Sources/UniqueID/Components.swift:33-44 | the decoded timestamp fits in 60 bits |
| Components.TimestampBytes | Sources/UniqueID/Components.swift:35-42 | the rebuilt timestamp octets are 8 |
| Components.RawTimestampIgnoresVersion | Sources/UniqueID/Components.swift:33-44 | the decoded timestamp depends on octets 0..7 but not on the version nibble |
| Components.RawTimestampFromBytes | Sources/UniqueID/Components.swift:40-43 | the decoded timestamp depends only on the rebuilt octets |
| Components.SameTimestampBytes | Sources/UniqueID/Components.swift:40-41 | the rebuilt octets ignore the high nibble of octet 6 |
| Components.RawTimestampRoundTrip | Sources/UniqueID/Components.swift:33-44 | decoding undoes the encoder on the timestamp's low 60 bits |
| Components.SmallRawTimestampRoundTrip | Sources/UniqueID/Components.swift:33-44 | every timestamp below 2^60 comes back unchanged |
| Components.Sequence | Sources/UniqueID/Components.swift:52-60 | the decoded sequence fits in 14 bits |
| Components.SequenceRoundTrip | Sources/UniqueID/Components.swift:52-60 | decoding gives back the encoded sequence's low 14 bits |
| Components.Node | Sources/UniqueID/Components.swift:63-71 | the decoded node fits in 48 bits |
| Components.NodeRoundTrip | Sources/UniqueID/Components.swift:63-71 | decoding gives back the encoded node's low 48 bits |
| Components.SmallTicksFit | Sources/UniqueID/v6.swift:83 | a tick count small enough for the `* 100` is untouched by the 60-bit mask and stays below 2^60 after the epoch shift |
| Components.TimestampRoundTrip | Sources/UniqueID/Components.swift:47-49 | an identifier generated from Unix tick count t decodes to t * 100 nanoseconds, whatever its sequence and node |

## Left out

- The `Mutex` around the generator state, and all concurrency. `V6.GeneratorState.Next` is the body of the critical section, run by one caller at a time.
- `SystemRandomNumberGenerator` and `Timestamp()`, the clock. The random draws and the clock reading are parameters: 16 octets for version 4, a 64-bit draw for the node, a 16-bit seed for the sequence, and a reading for the clock.
- The external `Timestamp` type. A reading is modelled as whole seconds and nanoseconds (`V6.Timestamp`). It is compared by the instant it denotes, and its `components` are those two fields.
- The `Timestamp` value that `TimeOrdered.timestamp` builds. Only its integer nanosecond count is modelled, as `Components.TimestampNanoseconds`.
- Host byte order. The model fixes the memory order of the 16-byte storage to octet 0 first, and `.bigEndian` to most significant octet first. So it does not model the reinterpretation through raw memory on a big-endian host.
- `Hashable`. It feeds the 16 octets to `Hasher`, which is outside the model.
- Error throwing in `Codable`, and the `String` and `withContiguousStorageIfAvailable` layer around the UTF-8 parser. Text is a sequence of UTF-8 bytes throughout. `TextForm.FromDescription` returns `None` where `init(from:)` throws.
- `init()` and `random()`. They only call the system generator.
- `UniqueID.components(_:)` and the `timeOrdered` sugar, whose body is a `preconditionFailure`.
- Components.Node: `UInt` is modelled as 64 bits wide.
- Components.TimestampNanoseconds: the trapping `*` in `timestamp` is a precondition (the tick count is at most (2^64 - 1) / 100). The trap itself is not modelled.
- Serialization.WriteHex: the `&+` index arithmetic is modelled as plain addition. Indices never come near the wrap-around, because the buffer holds at most 36 characters.
- Conversion.InitUTF8: computes the parse with the corrected 256-entry digit lookup (`Conversion.AsciiToHex`). For the byte 0xFF it yields `None`, where the source reads one entry past the end of `hex_table` (see "## Findings").
- V6.TimeOrdered: the default arguments `sequence: UInt16 = 0, node: UInt64 = 0` of `timeOrdered(rawTimestamp:sequence:node:)` are not modelled; every argument is explicit. The only caller, `timeOrdered(node:)`, passes both.
- `Package.swift`, the build description.

## Findings

| source | as written | input that shows it | evidently intended | confidence | as-written member | corrected member |
|---|---|---|---|---|---|---|
| Sources/UniqueID/Conversion.swift:37-73 | `hex_table` has 255 entries, and `asciiToHex` reads `hex_table[Int(ascii)]` through an unchecked buffer pointer | 0xFF at a position where `parseByte` reads a digit, e.g. as the first byte of the text: index 255 is one past the table's end | a 256-entry table: every non-digit byte, 0xFF included, maps to `DC` and makes the parse fail | high (not executed) | Conversion.AsciiToHexAsWritten, Conversion.HexTableMissesLastByte | Conversion.AsciiToHex, Conversion.AsciiToHexIsFullTableLookup |
| Sources/UniqueID/v6.swift:12-18 | the sequence is seeded with `rng.next() & 0x3fff`, which may be 0x3FFF; it is bumped in 16 bits (line 73) and encoded in 14 (line 49) | a fresh state seeded at 0x3FFF and two calls that read the same clock value: they get 0x3FFF and 0x4000, encoded as 0x3FFF and 0, so the second identifier sorts first | identifiers from one clock value rise with every call, for up to 2^14 calls | medium (not executed) | V6.SeededAtTopOfRange, V6.SecondRepeatedReadingSortsFirst | V6.RepeatedReadingsRise, V6.OrderFollowsSequence |
| Sources/UniqueID/v6.swift:68-84 | the locked step compares full-resolution readings with `state.timestamp >= timestamp` (line 72), but the identifier carries only the 100 ns tick count (lines 79-83) | readings (1 s, 0 ns) and then (1 s, 50 ns), with one node: the second reading is later, so the sequence is not bumped, and both calls return the same identifier | bump whenever the new tick count is not strictly greater than the stored one, so calls in one tick get distinct, rising identifiers | medium (not executed) | V6.SameTickSameIdentifier, V6.GeneratorState.Next | V6.GeneratorState.NextInTicks, V6.SameTickReadingsRise, V6.SameTickRisesWithTickStep |
| Sources/UniqueID/v6.swift:68-84 | a reading earlier than the stored one bumps the sequence (line 72), but the identifier encodes that earlier reading (lines 79-84), and the timestamp octets decide the order before the sequence octets | readings of 10 s and then 5 s, with one node: the second call gets seed + 1, yet its identifier sorts before the first | output stays monotonic when the clock steps back: a reading not later than the stored one bumps the sequence and keeps the stored timestamp | medium (not executed) | V6.RollbackSortsFirst | V6.LatestStep, V6.LatestStepRises |
