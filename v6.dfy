// Time-ordered identifiers (Sources/UniqueID/v6.swift): the RFC 9562
// version-6 encoder, the Gregorian-epoch offset arithmetic, and the
// generator state that hands out clock sequences.
module V6 {
  import opened Base
  import opened Layout

  // ---------------------------------------------------------------------
  // Big-endian octets of fixed-width integers.

  /** The eight octets of `value`, most significant first (`.bigEndian`). */
  function BigEndian64(value: UInt64): (octets: seq<UInt8>)
    ensures |octets| == 8
  {
    [ (value >> 56) as UInt8,
      ((value >> 48) & 0xFF) as UInt8,
      ((value >> 40) & 0xFF) as UInt8,
      ((value >> 32) & 0xFF) as UInt8,
      ((value >> 24) & 0xFF) as UInt8,
      ((value >> 16) & 0xFF) as UInt8,
      ((value >> 8) & 0xFF) as UInt8,
      (value & 0xFF) as UInt8 ]
  }

  /** The two octets of `value`, most significant first. */
  function BigEndian16(value: UInt16): (octets: seq<UInt8>)
    ensures |octets| == 2
  {
    [ (value >> 8) as UInt8, (value & 0xFF) as UInt8 ]
  }

  // ---------------------------------------------------------------------
  // The encoder, `timeOrdered(rawTimestamp:sequence:node:)`.

  /** Octets 0..7: `rawTimestamp << 4` big-endian, with the version nibble
      moved in above bits 11..8 and octet 7 rebuilt from the nibbles of the
      old octets 6 and 7. */
  function TimestampOctets(rawTimestamp: UInt64): (octets: seq<UInt8>)
    ensures |octets| == 8
    ensures octets[0] == ((rawTimestamp >> 52) & 0xFF) as UInt8
    ensures octets[1] == ((rawTimestamp >> 44) & 0xFF) as UInt8
    ensures octets[2] == ((rawTimestamp >> 36) & 0xFF) as UInt8
    ensures octets[3] == ((rawTimestamp >> 28) & 0xFF) as UInt8
    ensures octets[4] == ((rawTimestamp >> 20) & 0xFF) as UInt8
    ensures octets[5] == ((rawTimestamp >> 12) & 0xFF) as UInt8
    ensures octets[6] == 0x60 | ((rawTimestamp >> 8) & 0x0F) as UInt8
    ensures octets[7] == (rawTimestamp & 0xFF) as UInt8
  {
    var t := BigEndian64(rawTimestamp << 4);
    t[..6] + [0x60 | (t[6] >> 4), (t[6] << 4) | (t[7] >> 4)]
  }

  /** The octets the encoder produces: the big-endian form of
      `rawTimestamp << 4` with octets 6 and 7 rewritten to carry the version,
      then the sequence with the variant bits, then the low six octets of
      the node. The contract is the field layout of section 5.6 of RFC 9562:
      `time_high` and `time_mid` are bits 59..12 of the timestamp, octet 6 is
      version 6 over bits 11..8, octet 7 is bits 7..0, octets 8 and 9 are the
      variant `10` over the 14-bit clock sequence, octets 10..15 the node. */
  function TimeOrdered(rawTimestamp: UInt64, sequence: UInt16, node: UInt64): (id: UniqueID)
    ensures id.tuple[0] == ((rawTimestamp >> 52) & 0xFF) as UInt8
    ensures id.tuple[1] == ((rawTimestamp >> 44) & 0xFF) as UInt8
    ensures id.tuple[2] == ((rawTimestamp >> 36) & 0xFF) as UInt8
    ensures id.tuple[3] == ((rawTimestamp >> 28) & 0xFF) as UInt8
    ensures id.tuple[4] == ((rawTimestamp >> 20) & 0xFF) as UInt8
    ensures id.tuple[5] == ((rawTimestamp >> 12) & 0xFF) as UInt8
    ensures id.tuple[6] == 0x60 | ((rawTimestamp >> 8) & 0x0F) as UInt8
    ensures id.tuple[7] == (rawTimestamp & 0xFF) as UInt8
    ensures id.tuple[8] == 0x80 | ((sequence >> 8) & 0x3F) as UInt8
    ensures id.tuple[9] == (sequence & 0xFF) as UInt8
    ensures id.tuple[10] == ((node >> 40) & 0xFF) as UInt8
    ensures id.tuple[11] == ((node >> 32) & 0xFF) as UInt8
    ensures id.tuple[12] == ((node >> 24) & 0xFF) as UInt8
    ensures id.tuple[13] == ((node >> 16) & 0xFF) as UInt8
    ensures id.tuple[14] == ((node >> 8) & 0xFF) as UInt8
    ensures id.tuple[15] == (node & 0xFF) as UInt8
  {
    var q := BigEndian16((sequence & 0x3FFF) | 0x8000);
    assert q[0] == 0x80 | ((sequence >> 8) & 0x3F) as UInt8;
    UniqueID(TimestampOctets(rawTimestamp) + q + BigEndian64(node)[2..])
  }

  /** `timeOrdered(rawTimestamp:sequence:node:)`: the timestamp octets, the
      sequence with its variant bits and the node's octets, copied into a
      zeroed storage. */
  method EncodeTimeOrdered(rawTimestamp: UInt64, sequence: UInt16, node: UInt64) returns (id: UniqueID)
    ensures id == TimeOrdered(rawTimestamp, sequence, node)
  {
    var timestampBytes := TimestampBytes(rawTimestamp);
    // The top two bits of octet 8 are the variant.
    var sequenceAndVariant := BigEndian16((sequence & 0x3FFF) | 0x8000);
    var nodeBE := BigEndian64(node);
    var tuple := Store(timestampBytes, sequenceAndVariant, nodeBE);
    id := UniqueID(tuple);
  }

  /** The big-endian octets of `rawTimestamp << 4`, rewritten in place: octet
      7 first, from the old octet 6, then octet 6 with the version. */
  method TimestampBytes(rawTimestamp: UInt64) returns (octets: seq<UInt8>)
    ensures octets == TimestampOctets(rawTimestamp)
  {
    var shifted := BigEndian64(rawTimestamp << 4);
    var timestampBytes := new UInt8[8];
    forall i | 0 <= i < 8 {
      timestampBytes[i] := shifted[i];
    }
    // Insert the version bits in the top half of octet 6.
    timestampBytes[7] := (timestampBytes[6] << 4) | (timestampBytes[7] >> 4);
    timestampBytes[6] := 0x60 | (timestampBytes[6] >> 4);
    assert timestampBytes[..6] == shifted[..6];
    octets := timestampBytes[..];
  }

  /** The storage: eight timestamp octets, two sequence octets and the last
      six of the eight node octets, over a zeroed 16-byte buffer. */
  method Store(timestampBytes: seq<UInt8>, sequenceAndVariant: seq<UInt8>, nodeBE: seq<UInt8>)
    returns (tuple: Octets)
    requires |timestampBytes| == 8 && |sequenceAndVariant| == 2 && |nodeBE| == 8
    ensures tuple == timestampBytes + sequenceAndVariant + nodeBE[2..]
  {
    var storage := new UInt8[16](_ => 0);
    forall i | 0 <= i < 8 {
      storage[i] := timestampBytes[i];
    }
    forall i | 8 <= i < 10 {
      storage[i] := sequenceAndVariant[i - 8];
    }
    forall i | 10 <= i < 16 {
      storage[i] := nodeBE[i - 8];
    }
    assert storage[..] == timestampBytes + sequenceAndVariant + nodeBE[2..];
    tuple := storage[..];
  }

  /** Every encoded identifier is a version-6 one. */
  lemma TimeOrderedHasVersion6(rawTimestamp: UInt64, sequence: UInt16, node: UInt64)
    ensures Version(TimeOrdered(rawTimestamp, sequence, node)) == Some(6)
  {
    var id := TimeOrdered(rawTimestamp, sequence, node);
    assert id.tuple[8] & 0xC0 == 0x80;
    assert id.tuple[6] >> 4 == 6;
  }

  /** The encoding keeps only the low 60 bits of the timestamp, the low 14
      bits of the sequence and the low 48 bits of the node. */
  lemma TimeOrderedDropsHighBits(rawTimestamp: UInt64, sequence: UInt16, node: UInt64)
    ensures TimeOrdered(rawTimestamp, sequence, node)
         == TimeOrdered(rawTimestamp & 0x0FFF_FFFF_FFFF_FFFF, sequence & 0x3FFF, node & 0xFFFF_FFFF_FFFF)
  {
    var a := TimeOrdered(rawTimestamp, sequence, node).tuple;
    var b := TimeOrdered(rawTimestamp & 0x0FFF_FFFF_FFFF_FFFF, sequence & 0x3FFF, node & 0xFFFF_FFFF_FFFF).tuple;
    assert a[0] == b[0] && a[1] == b[1] && a[2] == b[2] && a[3] == b[3];
    assert a[4] == b[4] && a[5] == b[5] && a[6] == b[6] && a[7] == b[7];
    assert a[8] == b[8] && a[9] == b[9];
    assert a[10] == b[10] && a[11] == b[11] && a[12] == b[12];
    assert a[13] == b[13] && a[14] == b[14] && a[15] == b[15];
  }

  // ---------------------------------------------------------------------
  // Random node identifiers, `timeOrdered(using:)`.

  /** The multicast bit of an IEEE 802 node identifier, in the position it
      takes once the node's low 48 bits are laid out big-endian. */
  const MulticastBit: UInt64 := 0x0000_0100_0000_0000

  /** A random node: the draw with the multicast bit forced on. */
  function RandomNode(draw: UInt64): (node: UInt64)
    ensures node & MulticastBit == MulticastBit
    ensures node & !MulticastBit == draw & !MulticastBit
  {
    draw | MulticastBit
  }

  /** The forced bit is the low bit of octet 10, the first node octet. */
  lemma RandomNodeIsMulticast(rawTimestamp: UInt64, sequence: UInt16, draw: UInt64)
    ensures TimeOrdered(rawTimestamp, sequence, RandomNode(draw)).tuple[10] & 1 == 1
  {
    var node := RandomNode(draw);
    assert ((node >> 40) & 0xFF) & 1 == 1;
  }

  // ---------------------------------------------------------------------
  // Gregorian-epoch offset arithmetic.

  /** 100-nanosecond ticks from 1582-10-15 to 1970-01-01 (`timeOffset`). */
  const TimeOffset: UInt64 := 0x01b2_1dd2_1381_4000

  /** The offset is 141427 days of 86400 seconds, counted in 100 ns ticks,
      the gap between the Gregorian reform and the Unix epoch. */
  lemma TimeOffsetIsGregorianGap()
    ensures TimeOffset as int == 141427 * 86400 * 10_000_000
  {
  }

  /** `unix_to_uuid_timestamp`: adds the offset, wrapping. */
  function UnixToUUIDTimestamp(unix: UInt64): (timestamp: UInt64)
  {
    unix + TimeOffset
  }

  /** `uuid_timestamp_to_unix`: subtracts the offset, wrapping. */
  function UUIDTimestampToUnix(timestamp: UInt64): (unix: UInt64)
  {
    timestamp - TimeOffset
  }

  /** The two conversions are inverse to each other on all 64-bit values. */
  lemma TimestampConversionsRoundTrip(unix: UInt64, timestamp: UInt64)
    ensures UUIDTimestampToUnix(UnixToUUIDTimestamp(unix)) == unix
    ensures UnixToUUIDTimestamp(UUIDTimestampToUnix(timestamp)) == timestamp
  {
  }

  /** The 60-bit mask applied to the Unix tick count. */
  const UnixMask: UInt64 := 0x0FFF_FFFF_FFFF_FFFF

  // ---------------------------------------------------------------------
  // Clock readings.

  /** A clock reading, as its whole seconds and nanoseconds since the Unix
      epoch. Readings are ordered by the instant they denote. */
  datatype Timestamp = Timestamp(seconds: Int64, nanoseconds: Int64)

  /** The instant of a reading, in nanoseconds since the Unix epoch. */
  function Instant(t: Timestamp): int
  {
    t.seconds * 1_000_000_000 + t.nanoseconds
  }

  /** Swift's `UInt64(bitPattern:)`: two's complement reinterpretation. */
  function BitPattern(x: Int64): UInt64
  {
    if x >= 0 then x as UInt64 else (x + 0x1_0000_0000_0000_0000) as UInt64
  }

  /** The Unix tick count of a reading: seconds times 10^7 plus
      nanoseconds / 100, in wrapping unsigned 64-bit arithmetic. */
  function UnixTicks(t: Timestamp): (ticks: UInt64)
  {
    (BitPattern(t.seconds) * 10_000_000) + (BitPattern(t.nanoseconds) / 100)
  }

  // ---------------------------------------------------------------------
  // The generator state.

  /** The clock sequence after one locked step: bumped (wrapping at 2^16)
      when the stored reading is not earlier than the new one. */
  function NextSequence(stored: Timestamp, sequence: UInt16, now: Timestamp): UInt16
  {
    if Instant(stored) >= Instant(now) then sequence + 1 else sequence
  }

  /** `UUIDv6GeneratorState`: the last reading and the clock sequence. */
  class GeneratorState {
    var timestamp: Timestamp
    var sequence: UInt16

    /** Starts at reading zero, with the sequence seeded from a 16-bit draw
        cut to 14 bits. */
    constructor (seed: UInt16)
      ensures timestamp == Timestamp(0, 0)
      ensures sequence == seed & 0x3FFF && sequence <= 0x3FFF
    {
      timestamp := Timestamp(0, 0);
      sequence := seed & 0x3FFF;
    }

    /** The critical section of `timeOrdered(node:)`: bump the sequence if
        the clock has not advanced past the stored reading, then store the
        new reading unconditionally and return the sequence. */
    method Next(now: Timestamp) returns (result: UInt16)
      modifies this
      ensures timestamp == now
      ensures sequence == NextSequence(old(timestamp), old(sequence), now)
      ensures result == sequence
    {
      if Instant(timestamp) >= Instant(now) {
        sequence := sequence + 1;
      }
      timestamp := now;
      result := sequence;
    }

    /** The critical section with the step intended for it: bump unless
        the reading's tick count is past the stored reading's, then store
        the reading. */
    method NextInTicks(now: Timestamp) returns (result: UInt16)
      modifies this
      ensures timestamp == now
      ensures sequence == TickNextSequence(ReadingTimestamp(old(timestamp)), old(sequence), ReadingTimestamp(now))
      ensures result == sequence
    {
      if ReadingTimestamp(timestamp) >= ReadingTimestamp(now) {
        sequence := sequence + 1;
      }
      timestamp := now;
      result := sequence;
    }
  }

  /** The raw timestamp of a reading: its tick count cut to 60 bits and
      moved to the Gregorian epoch. */
  function ReadingTimestamp(now: Timestamp): UInt64
  {
    UnixToUUIDTimestamp(UnixTicks(now) & UnixMask)
  }

  /** The identifier a reading, a sequence and a node encode to. */
  function FromReading(now: Timestamp, sequence: UInt16, node: UInt64): UniqueID
  {
    TimeOrdered(ReadingTimestamp(now), sequence, node)
  }

  /** `timeOrdered(node:)`: one locked step, then the reading's tick count
      cut to 60 bits, moved to the Gregorian epoch and encoded. */
  method Generate(state: GeneratorState, now: Timestamp, node: UInt64) returns (id: UniqueID)
    modifies state
    ensures state.timestamp == now
    ensures state.sequence == NextSequence(old(state.timestamp), old(state.sequence), now)
    ensures id == FromReading(now, state.sequence, node)
  {
    var sequence := state.Next(now);
    var unix := UnixTicks(now);
    var rawTimestamp := UnixToUUIDTimestamp(unix & UnixMask);
    assert rawTimestamp == ReadingTimestamp(now);
    id := EncodeTimeOrdered(rawTimestamp, sequence, node);
  }

  /** `timeOrdered(using:)`: `timeOrdered(node:)` with a random node. */
  method GenerateRandom(state: GeneratorState, now: Timestamp, draw: UInt64) returns (id: UniqueID)
    modifies state
    ensures state.timestamp == now
    ensures state.sequence == NextSequence(old(state.timestamp), old(state.sequence), now)
    ensures id == FromReading(now, state.sequence, RandomNode(draw))
  {
    id := Generate(state, now, RandomNode(draw));
  }

  // ---------------------------------------------------------------------
  // The sequence as an integer.
  //
  // The solver relates eight-bit values to integers far more readily than
  // sixteen-bit ones, so these facts go through the two octets of a UInt16.

  lemma Value16(s: UInt16)
    ensures s as int == ((s >> 8) as UInt8) as int * 0x100 + ((s & 0xFF) as UInt8) as int
  {
  }

  lemma OctetAddOne(a: UInt8)
    requires a != 0xFF
    ensures (a + 1) as int == a as int + 1
  {
  }

  lemma SuccessorOctets(s: UInt16)
    requires s & 0xFF != 0xFF
    ensures ((s + 1) >> 8) as UInt8 == (s >> 8) as UInt8
    ensures ((s + 1) & 0xFF) as UInt8 == ((s & 0xFF) as UInt8) + 1
  {
  }

  lemma SuccessorOctetsCarry(s: UInt16)
    requires s & 0xFF == 0xFF && s != 0xFFFF
    ensures ((s + 1) >> 8) as UInt8 == ((s >> 8) as UInt8) + 1
    ensures ((s + 1) & 0xFF) as UInt8 == 0
    ensures (s >> 8) as UInt8 != 0xFF
  {
  }

  lemma ValueOfNextOctets(s: UInt16, t: UInt16)
    requires s & 0xFF != 0xFF
    requires (t >> 8) as UInt8 == (s >> 8) as UInt8
    requires (t & 0xFF) as UInt8 == ((s & 0xFF) as UInt8) + 1
    ensures t as int == s as int + 1
  {
    Value16(s);
    Value16(t);
    OctetAddOne((s & 0xFF) as UInt8);
  }

  lemma Value16SuccNoCarry(s: UInt16)
    requires s & 0xFF != 0xFF
    ensures (s + 1) as int == s as int + 1
  {
    SuccessorOctets(s);
    ValueOfNextOctets(s, s + 1);
  }

  lemma Value16SuccCarry(s: UInt16)
    requires s & 0xFF == 0xFF && s != 0xFFFF
    ensures (s + 1) as int == s as int + 1
  {
    var high := (s >> 8) as UInt8;
    Value16(s);
    Value16(s + 1);
    SuccessorOctetsCarry(s);
    OctetAddOne(high);
    assert (s & 0xFF) as UInt8 == 0xFF;
    assert s as int == high as int * 0x100 + 0xFF;
    assert (s + 1) as int == (high + 1) as int * 0x100;
  }

  /** The wrapping increment `&+= 1` is +1 modulo 2^16. */
  lemma Value16Succ(s: UInt16)
    ensures (s + 1) as int == (s as int + 1) % 0x1_0000
  {
    if s & 0xFF != 0xFF {
      Value16SuccNoCarry(s);
    } else if s != 0xFFFF {
      Value16SuccCarry(s);
    } else {
      assert s + 1 == 0;
    }
  }

  lemma MaskOctets(s: UInt16)
    ensures ((s & 0x3FFF) >> 8) as UInt8 == ((s >> 8) as UInt8) & 0x3F
    ensures ((s & 0x3FFF) & 0xFF) as UInt8 == (s & 0xFF) as UInt8
  {
  }

  lemma OctetLow6(a: UInt8)
    ensures (a & 0x3F) as int == a as int % 0x40
  {
  }

  lemma ModSplit(high: int, low: int)
    requires 0 <= high < 0x100 && 0 <= low < 0x100
    ensures (high * 0x100 + low) % 0x4000 == (high % 0x40) * 0x100 + low
  {
    var q, r := high / 0x40, high % 0x40;
    assert high * 0x100 + low == q * 0x4000 + (r * 0x100 + low);
    assert 0 <= r * 0x100 + low < 0x4000;
  }

  /** Masking with 0x3FFF keeps the value modulo 2^14. */
  lemma Value16Low14(s: UInt16)
    ensures (s & 0x3FFF) as int == s as int % 0x4000
  {
    var high, low := (s >> 8) as UInt8, (s & 0xFF) as UInt8;
    Value16(s);
    Value16(s & 0x3FFF);
    MaskOctets(s);
    OctetLow6(high);
    ModSplit(high as int, low as int);
  }

  lemma OctetLess(x: UInt8, y: UInt8)
    requires x as int < y as int
    ensures x < y
  {
  }

  lemma OctetEqual(x: UInt8, y: UInt8)
    requires x as int == y as int
    ensures x == y
  {
  }

  lemma OctetsLess(s1: UInt16, s2: UInt16)
    requires || (s1 >> 8) as UInt8 < (s2 >> 8) as UInt8
             || ((s1 >> 8) as UInt8 == (s2 >> 8) as UInt8 && (s1 & 0xFF) as UInt8 < (s2 & 0xFF) as UInt8)
    ensures s1 < s2
  {
  }

  /** The order of sixteen-bit values is the order of their integer values. */
  lemma LessFromInt(s1: UInt16, s2: UInt16)
    requires s1 as int < s2 as int
    ensures s1 < s2
  {
    var high1, low1, high2, low2 := (s1 >> 8) as UInt8, (s1 & 0xFF) as UInt8, (s2 >> 8) as UInt8, (s2 & 0xFF) as UInt8;
    Value16(s1);
    Value16(s2);
    if high1 as int < high2 as int {
      OctetLess(high1, high2);
    } else {
      OctetEqual(high1, high2);
      OctetLess(low1, low2);
    }
    OctetsLess(s1, s2);
  }

  lemma OctetRange(x: UInt8)
    ensures 0 <= x as int < 0x100
  {
  }

  lemma Base256(high1: int, low1: int, high2: int, low2: int)
    requires 0 <= low1 < 0x100 && 0 <= low2 < 0x100
    requires high1 * 0x100 + low1 == high2 * 0x100 + low2
    ensures high1 == high2 && low1 == low2
  {
  }

  lemma OctetsEqual(s1: UInt16, s2: UInt16)
    requires (s1 >> 8) as UInt8 == (s2 >> 8) as UInt8 && (s1 & 0xFF) as UInt8 == (s2 & 0xFF) as UInt8
    ensures s1 == s2
  {
  }

  /** Sixteen-bit values with the same integer value are equal. */
  lemma EqualFromInt(s1: UInt16, s2: UInt16)
    requires s1 as int == s2 as int
    ensures s1 == s2
  {
    var high1, low1, high2, low2 := (s1 >> 8) as UInt8, (s1 & 0xFF) as UInt8, (s2 >> 8) as UInt8, (s2 & 0xFF) as UInt8;
    Value16(s1);
    Value16(s2);
    OctetRange(low1);
    OctetRange(low2);
    Base256(high1 as int, low1 as int, high2 as int, low2 as int);
    OctetEqual(high1, high2);
    OctetEqual(low1, low2);
    OctetsEqual(s1, s2);
  }

  /** One locked step on the integer value of the sequence. */
  function Bumped(stored: Timestamp, value: int, now: Timestamp): int
  {
    if Instant(stored) >= Instant(now) then (value + 1) % 0x1_0000 else value
  }

  /** The locked step, read as integers, bumps modulo 2^16. */
  lemma NextSequenceValue(stored: Timestamp, sequence: UInt16, now: Timestamp)
    ensures NextSequence(stored, sequence, now) as int == Bumped(stored, sequence as int, now)
  {
    if Instant(stored) >= Instant(now) {
      assert NextSequence(stored, sequence, now) == sequence + 1;
      assert Bumped(stored, sequence as int, now) == (sequence as int + 1) % 0x1_0000;
      Value16Succ(sequence);
    } else {
      assert NextSequence(stored, sequence, now) == sequence;
    }
  }

  // ---------------------------------------------------------------------
  // Runs of calls.

  /** The reading stored before call k of a run started at `start`. */
  function StoredBefore(start: Timestamp, readings: seq<Timestamp>, k: nat): Timestamp
    requires k <= |readings|
  {
    if k == 0 then start else readings[k - 1]
  }

  /** The value of the sequence after the first k calls of a run whose
      state held `start` and `seed`; call k returns the value after k + 1
      calls. */
  function SequenceAfter(start: Timestamp, seed: UInt16, readings: seq<Timestamp>, k: nat): (value: int)
    requires k <= |readings|
    ensures 0 <= value < 0x1_0000
  {
    if k == 0 then seed as int
    else Bumped(StoredBefore(start, readings, k - 1), SequenceAfter(start, seed, readings, k - 1), readings[k - 1])
  }

  /** Whether call k bumps the sequence. */
  predicate Bumps(start: Timestamp, readings: seq<Timestamp>, k: nat)
    requires k < |readings|
  {
    Instant(StoredBefore(start, readings, k)) >= Instant(readings[k])
  }

  /** How many of the calls i..j-1 bump the sequence. */
  function BumpCount(start: Timestamp, readings: seq<Timestamp>, i: nat, j: nat): (count: nat)
    requires i <= j <= |readings|
    ensures count <= j - i
    decreases j
  {
    if i == j then 0
    else BumpCount(start, readings, i, j - 1) + (if Bumps(start, readings, j - 1) then 1 else 0)
  }

  /** Over calls i..j-1 the sequence advances by the number of bumps,
      modulo 2^16. */
  lemma {:induction false} SequenceAdvancesByBumps(start: Timestamp, seed: UInt16, readings: seq<Timestamp>, i: nat, j: nat)
    requires i <= j <= |readings|
    ensures SequenceAfter(start, seed, readings, j)
         == (SequenceAfter(start, seed, readings, i) + BumpCount(start, readings, i, j)) % 0x1_0000
    decreases j
  {
    if i < j {
      SequenceAdvancesByBumps(start, seed, readings, i, j - 1);
    }
  }

  /** A stretch of calls without a bump sees strictly rising readings. */
  lemma {:induction false} UnbumpedRunRises(start: Timestamp, readings: seq<Timestamp>, i: nat, j: nat)
    requires 1 <= i < j <= |readings|
    requires BumpCount(start, readings, i, j) == 0
    ensures Instant(readings[i - 1]) < Instant(readings[j - 1])
    decreases j
  {
    if i + 1 < j {
      UnbumpedRunRises(start, readings, i, j - 1);
    }
  }

  /** Advancing by 1..2^14-1 modulo 2^16 changes the value modulo 2^14. */
  lemma LowBitsMove(x: int, count: int)
    requires 0 <= x && 0 < count < 0x4000
    ensures ((x + count) % 0x1_0000) % 0x4000 != x % 0x4000
  {
    ModOfMod(x + count);
  }

  /** 2^14 divides 2^16, so reducing modulo 2^16 first changes nothing modulo 2^14. */
  lemma ModOfMod(y: int)
    requires y >= 0
    ensures (y % 0x1_0000) % 0x4000 == y % 0x4000
  {
    var q := y / 0x1_0000;
    assert y == (4 * q) * 0x4000 + y % 0x1_0000;
  }

  /** Two calls that read the same instant, fewer than 2^14 calls apart,
      hand out sequences that differ in the 14 bits the encoder keeps. */
  lemma SameInstantDistinctSequences(start: Timestamp, seed: UInt16, readings: seq<Timestamp>, c1: nat, c2: nat)
    requires c1 < c2 < |readings| && c2 - c1 < 0x4000
    requires Instant(readings[c1]) == Instant(readings[c2])
    ensures SequenceAfter(start, seed, readings, c1 + 1) % 0x4000
         != SequenceAfter(start, seed, readings, c2 + 1) % 0x4000
  {
    var count := BumpCount(start, readings, c1 + 1, c2 + 1);
    if count == 0 {
      UnbumpedRunRises(start, readings, c1 + 1, c2 + 1);
      assert false;
    }
    SequenceAdvancesByBumps(start, seed, readings, c1 + 1, c2 + 1);
    LowBitsMove(SequenceAfter(start, seed, readings, c1 + 1), count);
  }

  /** Sequences that differ modulo 2^14 give different identifiers for the
      same timestamp and node. */
  lemma DistinctSequencesDistinctIdentifiers(rawTimestamp: UInt64, s1: UInt16, s2: UInt16, node: UInt64)
    requires s1 as int % 0x4000 != s2 as int % 0x4000
    ensures TimeOrdered(rawTimestamp, s1, node) != TimeOrdered(rawTimestamp, s2, node)
  {
    Value16Low14(s1);
    Value16Low14(s2);
    var a, b := TimeOrdered(rawTimestamp, s1, node).tuple, TimeOrdered(rawTimestamp, s2, node).tuple;
    assert a[8] != b[8] || a[9] != b[9];
  }

  /** The stored sequence wraps at 2^16; the 14 bits the encoder keeps wrap
      consistently at 2^14. */
  lemma SequenceWraps(stored: Timestamp, sequence: UInt16, now: Timestamp)
    requires Instant(stored) >= Instant(now)
    ensures sequence == 0xFFFF ==> NextSequence(stored, sequence, now) == 0
    ensures NextSequence(stored, sequence, now) & 0x3FFF == ((sequence & 0x3FFF) + 1) & 0x3FFF
  {
  }

  // ---------------------------------------------------------------------
  // Order within one tick.

  /** With the same timestamp and node, identifiers are ordered by the 14
      sequence bits the encoder keeps, that is, by the sequences modulo 2^14. */
  lemma OrderFollowsSequence(rawTimestamp: UInt64, s1: UInt16, s2: UInt16, node: UInt64)
    ensures Less(TimeOrdered(rawTimestamp, s1, node), TimeOrdered(rawTimestamp, s2, node))
        <==> s1 as int % 0x4000 < s2 as int % 0x4000
  {
    if s1 as int % 0x4000 < s2 as int % 0x4000 {
      KeptLess(s1, s2);
      SmallerSequenceFirst(rawTimestamp, s1, s2, node);
    } else {
      NotSmallerNotFirst(rawTimestamp, s1, s2, node);
    }
  }

  /** A sequence not smaller modulo 2^14 does not give the smaller identifier. */
  lemma NotSmallerNotFirst(rawTimestamp: UInt64, s1: UInt16, s2: UInt16, node: UInt64)
    requires s2 as int % 0x4000 <= s1 as int % 0x4000
    ensures !Less(TimeOrdered(rawTimestamp, s1, node), TimeOrdered(rawTimestamp, s2, node))
  {
    var a, b := TimeOrdered(rawTimestamp, s1, node).tuple, TimeOrdered(rawTimestamp, s2, node).tuple;
    if s2 as int % 0x4000 < s1 as int % 0x4000 {
      KeptLess(s2, s1);
      SmallerSequenceFirst(rawTimestamp, s2, s1, node);
      LexTrichotomy(a, b);
    } else {
      KeptEqual(s1, s2);
      SameKeptSequenceSameIdentifier(rawTimestamp, s1, s2, node);
      LexIrreflexive(a);
    }
  }

  /** Sequences smaller modulo 2^14 have smaller kept bits. */
  lemma KeptLess(s1: UInt16, s2: UInt16)
    requires s1 as int % 0x4000 < s2 as int % 0x4000
    ensures s1 & 0x3FFF < s2 & 0x3FFF
  {
    var k1, k2 := s1 & 0x3FFF, s2 & 0x3FFF;
    Value16Low14(s1);
    Value16Low14(s2);
    LessFromInt(k1, k2);
  }

  /** Sequences equal modulo 2^14 have equal kept bits. */
  lemma KeptEqual(s1: UInt16, s2: UInt16)
    requires s1 as int % 0x4000 == s2 as int % 0x4000
    ensures s1 & 0x3FFF == s2 & 0x3FFF
  {
    var k1, k2 := s1 & 0x3FFF, s2 & 0x3FFF;
    Value16Low14(s1);
    Value16Low14(s2);
    EqualFromInt(k1, k2);
  }

  /** A smaller kept sequence gives the smaller identifier: octets 0-7 agree
      and octets 8-9 decide. */
  lemma SmallerSequenceFirst(rawTimestamp: UInt64, s1: UInt16, s2: UInt16, node: UInt64)
    requires s1 & 0x3FFF < s2 & 0x3FFF
    ensures Less(TimeOrdered(rawTimestamp, s1, node), TimeOrdered(rawTimestamp, s2, node))
  {
    var a, b := TimeOrdered(rawTimestamp, s1, node).tuple, TimeOrdered(rawTimestamp, s2, node).tuple;
    KeptBitsOrder(s1, s2);
    PrecedesAtSequence(a, b);
  }

  /** Sixteen octets that agree on the first eight are ordered by octets 8
      and 9 when those differ. */
  lemma PrecedesAtSequence(a: seq<UInt8>, b: seq<UInt8>)
    requires |a| == 16 && |b| == 16
    requires forall i | 0 <= i < 8 :: a[i] == b[i]
    requires a[8] < b[8] || (a[8] == b[8] && a[9] < b[9])
    ensures LexPrecedes(a, b)
  {
    assert a[..8] == b[..8];
    if a[8] < b[8] {
      PrecedesAtDifference(a, b, 8);
    } else {
      assert a[..9] == b[..9];
      PrecedesAtDifference(a, b, 9);
    }
  }

  /** The variant bits over the top six kept bits, then the low eight, order
      as the kept bits do. */
  lemma KeptBitsOrder(s1: UInt16, s2: UInt16)
    requires s1 & 0x3FFF < s2 & 0x3FFF
    ensures var high1, high2 := 0x80 | ((s1 >> 8) & 0x3F) as UInt8, 0x80 | ((s2 >> 8) & 0x3F) as UInt8;
      high1 < high2 || (high1 == high2 && (s1 & 0xFF) as UInt8 < (s2 & 0xFF) as UInt8)
  {
  }

  /** Sequences with the same kept bits give the same identifier. */
  lemma SameKeptSequenceSameIdentifier(rawTimestamp: UInt64, s1: UInt16, s2: UInt16, node: UInt64)
    requires s1 & 0x3FFF == s2 & 0x3FFF
    ensures TimeOrdered(rawTimestamp, s1, node) == TimeOrdered(rawTimestamp, s2, node)
  {
    assert (s1 & 0x3FFF) | 0x8000 == (s2 & 0x3FFF) | 0x8000;
  }

  // ---------------------------------------------------------------------
  // Order across ticks.

  /** The first eight octets of a decide in a's favour: the first of them
      that differs is smaller in a. */
  predicate LeadPrecedes(a: seq<UInt8>, b: seq<UInt8>)
    requires |a| >= 8 && |b| >= 8
  {
    OctetsLead(a[0], a[1], a[2], a[3], a[4], a[5], a[6], a[7], b[0], b[1], b[2], b[3], b[4], b[5], b[6], b[7])
  }

  /** The lexicographic comparison of a0..a7 with b0..b7. */
  predicate OctetsLead(a0: UInt8, a1: UInt8, a2: UInt8, a3: UInt8, a4: UInt8, a5: UInt8, a6: UInt8, a7: UInt8,
                       b0: UInt8, b1: UInt8, b2: UInt8, b3: UInt8, b4: UInt8, b5: UInt8, b6: UInt8, b7: UInt8)
  {
    a0 < b0 || (a0 == b0 && (
    a1 < b1 || (a1 == b1 && (
    a2 < b2 || (a2 == b2 && (
    a3 < b3 || (a3 == b3 && (
    a4 < b4 || (a4 == b4 && (
    a5 < b5 || (a5 == b5 && (
    a6 < b6 || (a6 == b6 &&
    a7 < b7)))))))))))))
  }

  /** A smaller timestamp below 2^60 has octets that come first: the octets
      carry bits 59..0 from the top, with the same version nibble in both. */
  lemma TimestampOctetsOrder(t1: UInt64, t2: UInt64)
    requires t1 < t2 < 0x1000_0000_0000_0000
    ensures LeadPrecedes(TimestampOctets(t1), TimestampOctets(t2))
  {
    TimestampFieldsOrder(t1, t2);
  }

  /** The comparison above on the octet values written out from the bits. */
  lemma TimestampFieldsOrder(t1: UInt64, t2: UInt64)
    requires t1 < t2 < 0x1000_0000_0000_0000
    ensures OctetsLead(
      ((t1 >> 52) & 0xFF) as UInt8, ((t1 >> 44) & 0xFF) as UInt8, ((t1 >> 36) & 0xFF) as UInt8, ((t1 >> 28) & 0xFF) as UInt8,
      ((t1 >> 20) & 0xFF) as UInt8, ((t1 >> 12) & 0xFF) as UInt8, 0x60 | ((t1 >> 8) & 0x0F) as UInt8, (t1 & 0xFF) as UInt8,
      ((t2 >> 52) & 0xFF) as UInt8, ((t2 >> 44) & 0xFF) as UInt8, ((t2 >> 36) & 0xFF) as UInt8, ((t2 >> 28) & 0xFF) as UInt8,
      ((t2 >> 20) & 0xFF) as UInt8, ((t2 >> 12) & 0xFF) as UInt8, 0x60 | ((t2 >> 8) & 0x0F) as UInt8, (t2 & 0xFF) as UInt8)
  {
  }

  /** Octets that the first eight decide precede in the lexicographic order. */
  lemma LeadPrecedesFirst(a: seq<UInt8>, b: seq<UInt8>)
    requires |a| == |b| >= 8 && LeadPrecedes(a, b)
    ensures LexPrecedes(a, b)
  {
    var k :| 0 <= k < 8 && a[..k] == b[..k] && a[k] < b[k] by {
      if a[0] < b[0] {
        assert a[..0] == b[..0];
      } else if a[1] < b[1] {
        assert a[..1] == b[..1];
      } else if a[2] < b[2] {
        assert a[..2] == b[..2];
      } else if a[3] < b[3] {
        assert a[..3] == b[..3];
      } else if a[4] < b[4] {
        assert a[..4] == b[..4];
      } else if a[5] < b[5] {
        assert a[..5] == b[..5];
      } else if a[6] < b[6] {
        assert a[..6] == b[..6];
      } else {
        assert a[..7] == b[..7];
      }
    }
    PrecedesAtDifference(a, b, k);
  }

  /** Identifiers with timestamps below 2^60 are ordered by timestamp first,
      whatever their sequences and nodes. */
  lemma TimestampOrder(t1: UInt64, s1: UInt16, n1: UInt64, t2: UInt64, s2: UInt16, n2: UInt64)
    requires t1 < t2 < 0x1000_0000_0000_0000
    ensures Less(TimeOrdered(t1, s1, n1), TimeOrdered(t2, s2, n2))
  {
    var a, b := TimeOrdered(t1, s1, n1).tuple, TimeOrdered(t2, s2, n2).tuple;
    TimestampOctetsOrder(t1, t2);
    assert LeadPrecedes(a, b);
    LeadPrecedesFirst(a, b);
  }

  /** The converse: an identifier that sorts first never carries the later
      of two timestamps below 2^60. */
  lemma LessBoundsTimestamp(t1: UInt64, s1: UInt16, n1: UInt64, t2: UInt64, s2: UInt16, n2: UInt64)
    requires t1 < 0x1000_0000_0000_0000 && t2 < 0x1000_0000_0000_0000
    ensures Less(TimeOrdered(t1, s1, n1), TimeOrdered(t2, s2, n2)) ==> t1 <= t2
  {
    if !(t1 <= t2) {
      TimestampOrder(t2, s2, n2, t1, s1, n1);
      LessAsymmetric(TimeOrdered(t2, s2, n2), TimeOrdered(t1, s1, n1));
    }
  }

  /** Of two identifiers, at most one sorts before the other. */
  lemma LessAsymmetric(lhs: UniqueID, rhs: UniqueID)
    requires Less(lhs, rhs)
    ensures !Less(rhs, lhs)
  {
    LexTrichotomy(lhs.tuple, rhs.tuple);
  }

  /** A clock that steps back: the second call bumps the sequence but encodes
      the earlier reading, so its identifier sorts before the first one's. */
  lemma RollbackSortsFirst(seed: UInt16, node: UInt64)
    ensures var readings := [Timestamp(10, 0), Timestamp(5, 0)];
      && SequenceWordAfter(Timestamp(0, 0), seed, readings, 2) == seed + 1
      && Less(CallIdentifier(Timestamp(0, 0), seed, readings, 1, node), CallIdentifier(Timestamp(0, 0), seed, readings, 0, node))
  {
    var readings := [Timestamp(10, 0), Timestamp(5, 0)];
    RollbackBumps(seed, readings);
    RollbackReadings();
    TimestampOrder(ReadingTimestamp(readings[1]), seed + 1, node, ReadingTimestamp(readings[0]), seed, node);
  }

  /** The sequence the two calls of the rollback run store. */
  lemma RollbackBumps(seed: UInt16, readings: seq<Timestamp>)
    requires readings == [Timestamp(10, 0), Timestamp(5, 0)]
    ensures SequenceWordAfter(Timestamp(0, 0), seed, readings, 1) == seed
    ensures SequenceWordAfter(Timestamp(0, 0), seed, readings, 2) == seed + 1
  {
    assert SequenceWordAfter(Timestamp(0, 0), seed, readings, 1) == seed;
  }

  /** The readings of 5 s and 10 s after the Unix epoch, as UUID timestamps. */
  lemma RollbackReadings()
    ensures ReadingTimestamp(Timestamp(5, 0)) == TimeOffset + 50_000_000
    ensures ReadingTimestamp(Timestamp(10, 0)) == TimeOffset + 100_000_000
    ensures TimeOffset + 100_000_000 < 0x1000_0000_0000_0000
  {
    assert BitPattern(0) == 0 && BitPattern(5) == 5 && BitPattern(10) == 10;
  }

  /** The step as designed for a clock that steps back: the state keeps the
      UUID timestamp of the last identifier handed out, and a reading that
      is not later than it bumps the sequence and reuses that timestamp. */
  function LatestStep(last: UInt64, sequence: UInt16, now: UInt64): (step: (UInt64, UInt16))
    ensures step.0 >= last && step.0 >= now
    ensures step.0 == last || step.0 == now
  {
    if last >= now then (last, sequence + 1) else (now, sequence)
  }

  /** With the designed step, the next identifier sorts after the last one,
      whether the clock advanced, stood still or stepped back, as long as
      the kept sequence bits do not wrap. */
  lemma LatestStepRises(last: UInt64, sequence: UInt16, now: UInt64, node: UInt64)
    requires last < 0x1000_0000_0000_0000 && now < 0x1000_0000_0000_0000
    requires sequence as int % 0x4000 != 0x3FFF
    ensures var step := LatestStep(last, sequence, now);
      Less(TimeOrdered(last, sequence, node), TimeOrdered(step.0, step.1, node))
  {
    if last >= now {
      Value16Succ(sequence);
      KeptBitsRise(sequence as int);
      OrderFollowsSequence(last, sequence, sequence + 1, node);
    } else {
      TimestampOrder(last, sequence, node, now, sequence, node);
    }
  }

  /** The stored sequence after the first k calls of a run, as the generator
      keeps it. */
  function SequenceWordAfter(start: Timestamp, seed: UInt16, readings: seq<Timestamp>, k: nat): UInt16
    requires k <= |readings|
  {
    if k == 0 then seed
    else NextSequence(StoredBefore(start, readings, k - 1), SequenceWordAfter(start, seed, readings, k - 1), readings[k - 1])
  }

  /** The stored sequence has the value the integer account gives it. */
  lemma {:induction false} SequenceWordValue(start: Timestamp, seed: UInt16, readings: seq<Timestamp>, k: nat)
    requires k <= |readings|
    ensures SequenceWordAfter(start, seed, readings, k) as int == SequenceAfter(start, seed, readings, k)
  {
    if k > 0 {
      SequenceWordValue(start, seed, readings, k - 1);
      NextSequenceValue(StoredBefore(start, readings, k - 1), SequenceWordAfter(start, seed, readings, k - 1), readings[k - 1]);
    }
  }

  /** The identifier call k of a run hands out for node `node`. */
  function CallIdentifier(start: Timestamp, seed: UInt16, readings: seq<Timestamp>, k: nat, node: UInt64): UniqueID
    requires k < |readings|
  {
    FromReading(readings[k], SequenceWordAfter(start, seed, readings, k + 1), node)
  }

  /** With one reading and one node, identifiers are ordered by the
      sequences modulo 2^14. */
  lemma SameReadingOrder(now: Timestamp, s1: UInt16, s2: UInt16, node: UInt64)
    ensures Less(FromReading(now, s1, node), FromReading(now, s2, node))
        <==> s1 as int % 0x4000 < s2 as int % 0x4000
  {
    OrderFollowsSequence(ReadingTimestamp(now), s1, s2, node);
  }

  /** A call that reads the same clock value as the call before it bumps
      the sequence; unless the value before was 0x3FFF modulo 2^14, the
      kept bits rise by one. */
  lemma RepeatedReadingBumps(start: Timestamp, seed: UInt16, readings: seq<Timestamp>, k: nat)
    requires k + 1 < |readings| && readings[k + 1] == readings[k]
    requires SequenceAfter(start, seed, readings, k + 1) % 0x4000 != 0x3FFF
    ensures SequenceAfter(start, seed, readings, k + 2) % 0x4000
         == SequenceAfter(start, seed, readings, k + 1) % 0x4000 + 1
  {
    var x := SequenceAfter(start, seed, readings, k + 1);
    assert Bumps(start, readings, k + 1);
    assert SequenceAfter(start, seed, readings, k + 2) == (x + 1) % 0x1_0000;
    ModOfMod(x + 1);
  }

  /** Over calls c1..c2 that all read the same clock value, the sequence
      rises by one per call modulo 2^14, for as long as it does not wrap. */
  lemma {:induction false} RepeatedReadingsAdvance(start: Timestamp, seed: UInt16, readings: seq<Timestamp>, c1: nat, c2: nat)
    requires c1 <= c2 < |readings|
    requires forall k | c1 <= k <= c2 :: readings[k] == readings[c1]
    requires SequenceAfter(start, seed, readings, c1 + 1) % 0x4000 + (c2 - c1) < 0x4000
    ensures SequenceAfter(start, seed, readings, c2 + 1) % 0x4000
         == SequenceAfter(start, seed, readings, c1 + 1) % 0x4000 + (c2 - c1)
    decreases c2
  {
    if c1 < c2 {
      RepeatedReadingsAdvance(start, seed, readings, c1, c2 - 1);
      RepeatedReadingBumps(start, seed, readings, c2 - 1);
    }
  }

  /** Calls c1 < c2 that read the same clock value, with the calls between
      them reading it too, hand out rising identifiers for as long as the
      kept sequence bits do not wrap. */
  lemma RepeatedReadingsRise(start: Timestamp, seed: UInt16, readings: seq<Timestamp>, c1: nat, c2: nat, node: UInt64)
    requires c1 < c2 < |readings|
    requires forall k | c1 <= k <= c2 :: readings[k] == readings[c1]
    requires SequenceAfter(start, seed, readings, c1 + 1) % 0x4000 + (c2 - c1) < 0x4000
    ensures Less(CallIdentifier(start, seed, readings, c1, node), CallIdentifier(start, seed, readings, c2, node))
  {
    RepeatedReadingsRiseInSequence(start, seed, readings, c1, c2);
    CallsOfOneReading(start, seed, readings, c1, c2, node);
  }

  /** The stored sequences of such calls rise modulo 2^14. */
  lemma RepeatedReadingsRiseInSequence(start: Timestamp, seed: UInt16, readings: seq<Timestamp>, c1: nat, c2: nat)
    requires c1 < c2 < |readings|
    requires forall k | c1 <= k <= c2 :: readings[k] == readings[c1]
    requires SequenceAfter(start, seed, readings, c1 + 1) % 0x4000 + (c2 - c1) < 0x4000
    ensures readings[c2] == readings[c1]
    ensures SequenceWordAfter(start, seed, readings, c1 + 1) as int % 0x4000
          < SequenceWordAfter(start, seed, readings, c2 + 1) as int % 0x4000
  {
    RepeatedReadingsAdvance(start, seed, readings, c1, c2);
    SequenceWordValue(start, seed, readings, c1 + 1);
    SequenceWordValue(start, seed, readings, c2 + 1);
  }

  /** Two calls that read the same clock value are ordered by the sequences
      they were handed, modulo 2^14. */
  lemma CallsOfOneReading(start: Timestamp, seed: UInt16, readings: seq<Timestamp>, c1: nat, c2: nat, node: UInt64)
    requires c1 < |readings| && c2 < |readings| && readings[c2] == readings[c1]
    ensures Less(CallIdentifier(start, seed, readings, c1, node), CallIdentifier(start, seed, readings, c2, node))
        <==> (SequenceWordAfter(start, seed, readings, c1 + 1) as int % 0x4000
              < SequenceWordAfter(start, seed, readings, c2 + 1) as int % 0x4000)
  {
    SameReadingOrder(readings[c1], SequenceWordAfter(start, seed, readings, c1 + 1),
                     SequenceWordAfter(start, seed, readings, c2 + 1), node);
  }

  /** The seed is cut to 14 bits but may be 0x3FFF, so the kept bits can
      wrap after one bump: the second of two calls that read the same
      clock value gets sequence 0x4000, whose kept bits are 0. */
  lemma SecondRepeatedReadingSortsFirst(rawTimestamp: UInt64, node: UInt64)
    ensures Less(TimeOrdered(rawTimestamp, 0x4000, node), TimeOrdered(rawTimestamp, 0x3FFF, node))
  {
    OrderFollowsSequence(rawTimestamp, 0x4000, 0x3FFF, node);
  }

  /** A generator seeded at 0x3FFF, called twice with one reading: the
      second identifier sorts before the first. */
  method SeededAtTopOfRange(now: Timestamp, node: UInt64) returns (first: UniqueID, second: UniqueID)
    requires Instant(now) > 0
    ensures first == FromReading(now, 0x3FFF, node)
    ensures second == FromReading(now, 0x4000, node)
    ensures Less(second, first)
  {
    var state := new GeneratorState(0x3FFF);
    first := Generate(state, now, node);
    second := Generate(state, now, node);
    SecondRepeatedReadingSortsFirst(ReadingTimestamp(now), node);
  }

  /** The stored reading is the last one, not the latest: after readings
      10 s and 5 s, a reading of 7 s (earlier than one already seen) does
      not bump the sequence. */
  lemma StoredReadingIsLastNotLatest(seed: UInt16)
    ensures SequenceAfter(Timestamp(0, 0), seed, [Timestamp(10, 0), Timestamp(5, 0), Timestamp(7, 0)], 3)
         == (seed as int + 1) % 0x1_0000
    ensures !Bumps(Timestamp(0, 0), [Timestamp(10, 0), Timestamp(5, 0), Timestamp(7, 0)], 2)
  {
    var readings := [Timestamp(10, 0), Timestamp(5, 0), Timestamp(7, 0)];
    assert SequenceAfter(Timestamp(0, 0), seed, readings, 1) == seed as int;
    assert SequenceAfter(Timestamp(0, 0), seed, readings, 2) == (seed as int + 1) % 0x1_0000;
  }

  /** Readings are compared to the nanosecond but encoded in 100 ns ticks:
      two readings 50 ns apart within one tick, in consecutive calls, get
      the same tick count and the same sequence, so with the same node they
      are handed the same identifier. */
  lemma SameTickSameIdentifier(seed: UInt16, node: UInt64)
    ensures var readings := [Timestamp(1, 0), Timestamp(1, 50)];
      && UnixTicks(readings[0]) == UnixTicks(readings[1])
      && SequenceWordAfter(Timestamp(0, 0), seed, readings, 1) == SequenceWordAfter(Timestamp(0, 0), seed, readings, 2)
      && CallIdentifier(Timestamp(0, 0), seed, readings, 0, node) == CallIdentifier(Timestamp(0, 0), seed, readings, 1, node)
  {
    var readings := [Timestamp(1, 0), Timestamp(1, 50)];
    assert SequenceWordAfter(Timestamp(0, 0), seed, readings, 1) == seed;
    assert SequenceWordAfter(Timestamp(0, 0), seed, readings, 2) == seed;
    assert BitPattern(50) == 50 && BitPattern(0) == 0 && BitPattern(1) == 1;
    assert ReadingTimestamp(readings[0]) == ReadingTimestamp(readings[1]);
  }

  // ---------------------------------------------------------------------
  // The locked step on tick counts.
  //
  // The step as intended compares the tick counts the identifiers carry
  // (the raw timestamps), so a reading that stays in the stored reading's
  // tick bumps the sequence even when it is later by a few nanoseconds.

  /** The clock sequence after one locked step that compares tick counts:
      bumped (wrapping at 2^16) unless the new tick count is strictly
      greater than the stored one. */
  function TickNextSequence(storedTicks: UInt64, sequence: UInt16, nowTicks: UInt64): UInt16
  {
    if storedTicks >= nowTicks then sequence + 1 else sequence
  }

  /** `timeOrdered(node:)` with the locked step on tick counts. */
  method GenerateInTicks(state: GeneratorState, now: Timestamp, node: UInt64) returns (id: UniqueID)
    modifies state
    ensures state.timestamp == now
    ensures state.sequence == TickNextSequence(ReadingTimestamp(old(state.timestamp)), old(state.sequence), ReadingTimestamp(now))
    ensures id == FromReading(now, state.sequence, node)
  {
    var sequence := state.NextInTicks(now);
    var rawTimestamp := ReadingTimestamp(now);
    id := EncodeTimeOrdered(rawTimestamp, sequence, node);
  }

  /** The stored sequence after the first k calls of a run with the
      tick-count step, given the tick counts of the readings. */
  function TickSequenceAfter(startTicks: UInt64, seed: UInt16, ticks: seq<UInt64>, k: nat): UInt16
    requires k <= |ticks|
  {
    if k == 0 then seed
    else TickNextSequence(StoredTicks(startTicks, ticks, k - 1), TickSequenceAfter(startTicks, seed, ticks, k - 1), ticks[k - 1])
  }

  /** The tick count stored before call k of such a run. */
  function StoredTicks(startTicks: UInt64, ticks: seq<UInt64>, k: nat): UInt64
    requires k <= |ticks|
  {
    if k == 0 then startTicks else ticks[k - 1]
  }

  /** The identifier call k of such a run hands out for node `node`. */
  function TickCallIdentifier(startTicks: UInt64, seed: UInt16, ticks: seq<UInt64>, k: nat, node: UInt64): UniqueID
    requires k < |ticks|
  {
    TimeOrdered(ticks[k], TickSequenceAfter(startTicks, seed, ticks, k + 1), node)
  }

  /** One locked step on tick counts, on the integer value of the
      sequence. */
  function TickBumped(storedTicks: UInt64, value: int, nowTicks: UInt64): int
  {
    if storedTicks >= nowTicks then (value + 1) % 0x1_0000 else value
  }

  /** The step on tick counts, read as integers, bumps modulo 2^16. */
  lemma TickNextSequenceValue(storedTicks: UInt64, sequence: UInt16, nowTicks: UInt64)
    ensures TickNextSequence(storedTicks, sequence, nowTicks) as int == TickBumped(storedTicks, sequence as int, nowTicks)
  {
    if storedTicks >= nowTicks {
      assert TickNextSequence(storedTicks, sequence, nowTicks) == sequence + 1;
      assert TickBumped(storedTicks, sequence as int, nowTicks) == (sequence as int + 1) % 0x1_0000;
      Value16Succ(sequence);
    } else {
      assert TickNextSequence(storedTicks, sequence, nowTicks) == sequence;
    }
  }

  /** The value of the sequence after the first k calls of such a run, as
      an integer. */
  function TickSequenceValue(startTicks: UInt64, seed: UInt16, ticks: seq<UInt64>, k: nat): (value: int)
    requires k <= |ticks|
    ensures 0 <= value < 0x1_0000
  {
    if k == 0 then seed as int
    else TickBumped(StoredTicks(startTicks, ticks, k - 1), TickSequenceValue(startTicks, seed, ticks, k - 1), ticks[k - 1])
  }

  /** The stored sequence has the value the integer account gives it. */
  lemma {:induction false} TickSequenceWordValue(startTicks: UInt64, seed: UInt16, ticks: seq<UInt64>, k: nat)
    requires k <= |ticks|
    ensures TickSequenceAfter(startTicks, seed, ticks, k) as int == TickSequenceValue(startTicks, seed, ticks, k)
  {
    if k > 0 {
      TickSequenceWordValue(startTicks, seed, ticks, k - 1);
      TickNextSequenceValue(StoredTicks(startTicks, ticks, k - 1), TickSequenceAfter(startTicks, seed, ticks, k - 1), ticks[k - 1]);
    }
  }

  /** Below the top of the 14-bit range, a bump modulo 2^16 raises the
      kept bits by one. */
  lemma KeptBitsRise(x: int)
    requires 0 <= x && x % 0x4000 != 0x3FFF
    ensures ((x + 1) % 0x1_0000) % 0x4000 == x % 0x4000 + 1
  {
    ModOfMod(x + 1);
  }

  /** A call in the tick of the call before it bumps the sequence; unless
      the value before was 0x3FFF modulo 2^14, the kept bits rise by one. */
  lemma SameTickBumps(startTicks: UInt64, seed: UInt16, ticks: seq<UInt64>, k: nat)
    requires k + 1 < |ticks| && ticks[k + 1] == ticks[k]
    requires TickSequenceValue(startTicks, seed, ticks, k + 1) % 0x4000 != 0x3FFF
    ensures TickSequenceValue(startTicks, seed, ticks, k + 2) % 0x4000
         == TickSequenceValue(startTicks, seed, ticks, k + 1) % 0x4000 + 1
  {
    var x := TickSequenceValue(startTicks, seed, ticks, k + 1);
    assert StoredTicks(startTicks, ticks, k + 1) >= ticks[k + 1];
    assert TickSequenceValue(startTicks, seed, ticks, k + 2) == (x + 1) % 0x1_0000;
    KeptBitsRise(x);
  }

  /** Over calls c1..c2 in one tick, the sequence rises by one per call
      modulo 2^14, for as long as it does not wrap. */
  lemma {:induction false} SameTickAdvance(startTicks: UInt64, seed: UInt16, ticks: seq<UInt64>, c1: nat, c2: nat)
    requires c1 <= c2 < |ticks|
    requires forall k | c1 <= k <= c2 :: ticks[k] == ticks[c1]
    requires TickSequenceValue(startTicks, seed, ticks, c1 + 1) % 0x4000 + (c2 - c1) < 0x4000
    ensures TickSequenceValue(startTicks, seed, ticks, c2 + 1) % 0x4000
         == TickSequenceValue(startTicks, seed, ticks, c1 + 1) % 0x4000 + (c2 - c1)
    decreases c2
  {
    if c1 < c2 {
      SameTickAdvance(startTicks, seed, ticks, c1, c2 - 1);
      SameTickBumps(startTicks, seed, ticks, c2 - 1);
    }
  }

  /** With the tick-count step, calls c1 < c2 that, with the calls between
      them, fall in one tick hand out strictly rising identifiers for as
      long as the kept sequence bits do not wrap. */
  lemma SameTickReadingsRise(startTicks: UInt64, seed: UInt16, ticks: seq<UInt64>, c1: nat, c2: nat, node: UInt64)
    requires c1 < c2 < |ticks|
    requires forall k | c1 <= k <= c2 :: ticks[k] == ticks[c1]
    requires TickSequenceValue(startTicks, seed, ticks, c1 + 1) % 0x4000 + (c2 - c1) < 0x4000
    ensures Less(TickCallIdentifier(startTicks, seed, ticks, c1, node), TickCallIdentifier(startTicks, seed, ticks, c2, node))
  {
    SameTickRiseInSequence(startTicks, seed, ticks, c1, c2);
    CallsOfOneTick(startTicks, seed, ticks, c1, c2, node);
  }

  /** The stored sequences of such calls rise modulo 2^14. */
  lemma SameTickRiseInSequence(startTicks: UInt64, seed: UInt16, ticks: seq<UInt64>, c1: nat, c2: nat)
    requires c1 < c2 < |ticks|
    requires forall k | c1 <= k <= c2 :: ticks[k] == ticks[c1]
    requires TickSequenceValue(startTicks, seed, ticks, c1 + 1) % 0x4000 + (c2 - c1) < 0x4000
    ensures ticks[c2] == ticks[c1]
    ensures TickSequenceAfter(startTicks, seed, ticks, c1 + 1) as int % 0x4000
          < TickSequenceAfter(startTicks, seed, ticks, c2 + 1) as int % 0x4000
  {
    SameTickAdvance(startTicks, seed, ticks, c1, c2);
    TickSequenceWordValue(startTicks, seed, ticks, c1 + 1);
    TickSequenceWordValue(startTicks, seed, ticks, c2 + 1);
  }

  /** Two calls in one tick are ordered by the sequences they were handed,
      modulo 2^14. */
  lemma CallsOfOneTick(startTicks: UInt64, seed: UInt16, ticks: seq<UInt64>, c1: nat, c2: nat, node: UInt64)
    requires c1 < |ticks| && c2 < |ticks| && ticks[c2] == ticks[c1]
    ensures Less(TickCallIdentifier(startTicks, seed, ticks, c1, node), TickCallIdentifier(startTicks, seed, ticks, c2, node))
        <==> (TickSequenceAfter(startTicks, seed, ticks, c1 + 1) as int % 0x4000
              < TickSequenceAfter(startTicks, seed, ticks, c2 + 1) as int % 0x4000)
  {
    OrderFollowsSequence(ticks[c1], TickSequenceAfter(startTicks, seed, ticks, c1 + 1),
                         TickSequenceAfter(startTicks, seed, ticks, c2 + 1), node);
  }

  /** The two readings that share an identifier under the nanosecond step
      get rising identifiers under the tick-count step. */
  lemma SameTickRisesWithTickStep(seed: UInt16, node: UInt64)
    requires seed as int % 0x4000 != 0x3FFF
    ensures var ticks := [ReadingTimestamp(Timestamp(1, 0)), ReadingTimestamp(Timestamp(1, 50))];
      && TickCallIdentifier(ReadingTimestamp(Timestamp(0, 0)), seed, ticks, 0, node) == FromReading(Timestamp(1, 0), seed, node)
      && Less(TickCallIdentifier(ReadingTimestamp(Timestamp(0, 0)), seed, ticks, 0, node),
              TickCallIdentifier(ReadingTimestamp(Timestamp(0, 0)), seed, ticks, 1, node))
  {
    var ticks := [ReadingTimestamp(Timestamp(1, 0)), ReadingTimestamp(Timestamp(1, 50))];
    var startTicks := ReadingTimestamp(Timestamp(0, 0));
    assert BitPattern(50) == 50 && BitPattern(0) == 0 && BitPattern(1) == 1;
    assert startTicks < ticks[0] && ticks[0] == ticks[1];
    assert TickSequenceAfter(startTicks, seed, ticks, 1) == seed;
    assert TickSequenceValue(startTicks, seed, ticks, 1) == seed as int;
    SameTickReadingsRise(startTicks, seed, ticks, 0, 1, node);
  }
}
