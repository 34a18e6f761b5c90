// Reading the fields back out of a version-6 identifier
// (Sources/UniqueID/Components.swift): the inverse of the V6 encoder.
module Components {
  import opened Base
  import opened Layout
  import V4
  import V6

  /** `UniqueID.TimeOrdered`: an identifier known to be version 6. */
  datatype TimeOrdered = TimeOrdered(uuid: UniqueID)

  /** `TimeOrdered.init?`: accepts exactly the version-6 identifiers. */
  function FromUniqueID(uuid: UniqueID): (r: Option<TimeOrdered>)
    ensures r.Some? <==> Version(uuid) == Some(6)
    ensures r.Some? ==> r.value.uuid == uuid
  {
    if Version(uuid) == Some(6) then Some(TimeOrdered(uuid)) else None
  }

  /** Every identifier the V6 encoder produces is accepted, unchanged. */
  lemma EncodedAreTimeOrdered(rawTimestamp: UInt64, sequence: UInt16, node: UInt64)
    ensures FromUniqueID(V6.TimeOrdered(rawTimestamp, sequence, node))
         == Some(TimeOrdered(V6.TimeOrdered(rawTimestamp, sequence, node)))
  {
    V6.TimeOrderedHasVersion6(rawTimestamp, sequence, node);
  }

  /** No random (version-4) identifier is accepted. */
  lemma RandomAreNotTimeOrdered(random: Octets)
    ensures FromUniqueID(V4.Stamp(random)) == None
  {
    V4.StampHasVersion4(random);
  }

  /** The unsigned value of eight octets, most significant first. */
  function FromBigEndian64(octets: seq<UInt8>): UInt64
    requires |octets| == 8
  {
    (octets[0] as UInt64 << 56) | (octets[1] as UInt64 << 48)
    | (octets[2] as UInt64 << 40) | (octets[3] as UInt64 << 32)
    | (octets[4] as UInt64 << 24) | (octets[5] as UInt64 << 16)
    | (octets[6] as UInt64 << 8) | octets[7] as UInt64
  }

  /** `rawTimestamp`: octets 0..7 with the version nibble squeezed out of
      octets 6 and 7, read big-endian and shifted down four bits. */
  function RawTimestamp(view: TimeOrdered): (rawTimestamp: UInt64)
    ensures rawTimestamp < 0x1000_0000_0000_0000
  {
    FromBigEndian64(TimestampBytes(view.uuid.tuple)) >> 4
  }

  /** Octets 0..7 with octet 6 rebuilt from the low nibbles of octets 6
      and 7, and octet 7 from the low nibble of octet 7. */
  function TimestampBytes(o: Octets): (timestampBytes: seq<UInt8>)
    ensures |timestampBytes| == 8
  {
    o[..6] + [(o[6] << 4) | (o[7] >> 4), o[7] << 4]
  }

  /** The timestamp is read from every bit of octets 0..7 except the version
      nibble. */
  lemma RawTimestampIgnoresVersion(a: TimeOrdered, b: TimeOrdered)
    requires a.uuid.tuple[..6] == b.uuid.tuple[..6] && a.uuid.tuple[7] == b.uuid.tuple[7]
    requires a.uuid.tuple[6] & 0x0F == b.uuid.tuple[6] & 0x0F
    ensures RawTimestamp(a) == RawTimestamp(b)
  {
    var p, q := a.uuid.tuple, b.uuid.tuple;
    LowNibbleShift(p[6], q[6]);
    SameTimestampBytes(p, q);
    RawTimestampFromBytes(a, b);
  }

  lemma RawTimestampFromBytes(a: TimeOrdered, b: TimeOrdered)
    requires TimestampBytes(a.uuid.tuple) == TimestampBytes(b.uuid.tuple)
    ensures RawTimestamp(a) == RawTimestamp(b)
  {
  }

  lemma SameTimestampBytes(p: Octets, q: Octets)
    requires p[..6] == q[..6] && p[7] == q[7] && p[6] << 4 == q[6] << 4
    ensures TimestampBytes(p) == TimestampBytes(q)
  {
  }

  lemma LowNibbleShift(x: UInt8, y: UInt8)
    requires x & 0x0F == y & 0x0F
    ensures x << 4 == y << 4
  {
  }

  /** Decoding the timestamp undoes the encoder on its low 60 bits. */
  lemma RawTimestampRoundTrip(rawTimestamp: UInt64, sequence: UInt16, node: UInt64)
    ensures RawTimestamp(TimeOrdered(V6.TimeOrdered(rawTimestamp, sequence, node)))
         == rawTimestamp & 0x0FFF_FFFF_FFFF_FFFF
  {
  }

  /** So every timestamp below 2^60 comes back unchanged. */
  lemma SmallRawTimestampRoundTrip(rawTimestamp: UInt64, sequence: UInt16, node: UInt64)
    requires rawTimestamp < 0x1000_0000_0000_0000
    ensures RawTimestamp(TimeOrdered(V6.TimeOrdered(rawTimestamp, sequence, node))) == rawTimestamp
  {
    RawTimestampRoundTrip(rawTimestamp, sequence, node);
    Below60Unmasked(rawTimestamp);
  }

  lemma Below60Unmasked(x: UInt64)
    requires x < 0x1000_0000_0000_0000
    ensures x & 0x0FFF_FFFF_FFFF_FFFF == x
  {
  }

  /** `sequence`: octets 8 and 9 big-endian, without the variant bits. */
  function Sequence(view: TimeOrdered): (sequence: UInt16)
    ensures sequence <= 0x3FFF
  {
    var o := view.uuid.tuple;
    ((o[8] as UInt16 << 8) | o[9] as UInt16) & 0x3FFF
  }

  /** Decoding the sequence gives back its low 14 bits. */
  lemma SequenceRoundTrip(rawTimestamp: UInt64, sequence: UInt16, node: UInt64)
    ensures Sequence(TimeOrdered(V6.TimeOrdered(rawTimestamp, sequence, node))) == sequence & 0x3FFF
  {
  }

  /** `node`: octets 10..15 big-endian, zero-extended to 64 bits. */
  function Node(view: TimeOrdered): (node: UInt64)
    ensures node < 0x1_0000_0000_0000
  {
    var o := view.uuid.tuple;
    FromBigEndian64([0, 0] + o[10..16])
  }

  /** Decoding the node gives back its low 48 bits. */
  lemma NodeRoundTrip(rawTimestamp: UInt64, sequence: UInt16, node: UInt64)
    ensures Node(TimeOrdered(V6.TimeOrdered(rawTimestamp, sequence, node))) == node & 0xFFFF_FFFF_FFFF
  {
  }

  /** The largest tick count whose nanosecond value fits in 64 bits,
      (2^64 - 1) / 100 rounded down. */
  const MaxTicks: UInt64 := 0x028F_5C28_F5C2_8F5C

  /** The integer part of `timestamp`: the Unix tick count, in nanoseconds.
      The source multiplies with a trapping `*`, so the tick count must be
      small enough for the product to fit. */
  function TimestampNanoseconds(view: TimeOrdered): (nanoseconds: UInt64)
    requires V6.UUIDTimestampToUnix(RawTimestamp(view)) <= MaxTicks
  {
    Nanoseconds(V6.UUIDTimestampToUnix(RawTimestamp(view)))
  }

  /** A count of 100 ns ticks in nanoseconds, with Swift's trapping `*`:
      defined only when the product fits in 64 bits. */
  function Nanoseconds(ticks: UInt64): UInt64
    requires ticks <= MaxTicks
  {
    ticks * 100
  }

  /** A tick count below 2^64 / 100 is untouched by the 60-bit mask and
      stays below 2^60 once moved to the Gregorian epoch. */
  lemma SmallTicksFit(unix: UInt64)
    requires unix <= MaxTicks
    ensures unix & V6.UnixMask == unix
    ensures V6.UnixToUUIDTimestamp(unix) < 0x1000_0000_0000_0000
  {
  }

  lemma NanosecondsOfTicks(view: TimeOrdered, unix: UInt64)
    requires unix <= MaxTicks && V6.UUIDTimestampToUnix(RawTimestamp(view)) == unix
    ensures TimestampNanoseconds(view) == Nanoseconds(unix)
  {
  }

  /** An identifier encoded from a Unix tick count t (below 2^64 / 100 ns)
      decodes to t * 100 nanoseconds, whatever its sequence and node. */
  lemma TimestampRoundTrip(unix: UInt64, sequence: UInt16, node: UInt64)
    requires unix <= MaxTicks
    ensures var view := TimeOrdered(V6.TimeOrdered(V6.UnixToUUIDTimestamp(unix & V6.UnixMask), sequence, node));
      && V6.UUIDTimestampToUnix(RawTimestamp(view)) <= MaxTicks
      && TimestampNanoseconds(view) == Nanoseconds(unix)
  {
    SmallTicksFit(unix);
    var rawTimestamp := V6.UnixToUUIDTimestamp(unix & V6.UnixMask);
    var view := TimeOrdered(V6.TimeOrdered(rawTimestamp, sequence, node));
    SmallRawTimestampRoundTrip(rawTimestamp, sequence, node);
    assert RawTimestamp(view) == rawTimestamp;
    V6.TimestampConversionsRoundTrip(unix, rawTimestamp);
    assert V6.UUIDTimestampToUnix(RawTimestamp(view)) == unix;
    NanosecondsOfTicks(view, unix);
  }
}
