// The 16-octet identifier value type: equality, ordering, the version view,
// construction from a byte sequence and the `bytes` copy-out
// (Sources/UniqueID/UniqueID.swift).
module Layout {
  import opened Base

  /** The 16 octets of an identifier, octet 0 first. */
  type Octets = s: seq<UInt8> | |s| == 16
    witness [0, 0, 0, 0, 0, 0, 0, 0, 0, 0, 0, 0, 0, 0, 0, 0]

  /** An identifier is nothing but its 16 octets. */
  datatype UniqueID = UniqueID(tuple: Octets)

  /** The all-zero identifier. */
  const Zero: UniqueID := UniqueID([0, 0, 0, 0, 0, 0, 0, 0, 0, 0, 0, 0, 0, 0, 0, 0])

  // ---------------------------------------------------------------------
  // Equality: `elementsEqual` over the raw bytes.

  /** The standard library's `elementsEqual`, element by element. */
  function ElementsEqual(a: seq<UInt8>, b: seq<UInt8>): bool
    decreases |a|
  {
    if a == [] || b == [] then a == [] && b == []
    else a[0] == b[0] && ElementsEqual(a[1..], b[1..])
  }

  lemma {:induction false} ElementsEqualIsEquality(a: seq<UInt8>, b: seq<UInt8>)
    ensures ElementsEqual(a, b) <==> a == b
    decreases |a|
  {
    if a != [] && b != [] {
      ElementsEqualIsEquality(a[1..], b[1..]);
      if a[0] == b[0] && a[1..] == b[1..] {
        assert a == [a[0]] + a[1..] && b == [b[0]] + b[1..];
      }
    }
  }

  /** `==` on identifiers. */
  function Equal(lhs: UniqueID, rhs: UniqueID): bool
  {
    ElementsEqual(lhs.tuple, rhs.tuple)
  }

  /** Two identifiers are equal exactly when all 16 octets are pairwise equal. */
  lemma EqualIffOctetsEqual(lhs: UniqueID, rhs: UniqueID)
    ensures Equal(lhs, rhs) <==> forall i :: 0 <= i < 16 ==> lhs.tuple[i] == rhs.tuple[i]
    ensures Equal(lhs, rhs) <==> lhs == rhs
  {
    ElementsEqualIsEquality(lhs.tuple, rhs.tuple);
    if forall i :: 0 <= i < 16 ==> lhs.tuple[i] == rhs.tuple[i] {
      assert lhs.tuple == rhs.tuple;
    }
  }

  // ---------------------------------------------------------------------
  // Ordering: `lexicographicallyPrecedes` over the raw bytes.

  /** The standard library's `lexicographicallyPrecedes`: the first differing
      element decides; a proper prefix precedes the longer sequence. */
  function LexPrecedes(a: seq<UInt8>, b: seq<UInt8>): bool
    decreases |a|
  {
    if a == [] then b != []
    else if b == [] then false
    else if a[0] < b[0] then true
    else if b[0] < a[0] then false
    else LexPrecedes(a[1..], b[1..])
  }

  /** `<` on identifiers. */
  function Less(lhs: UniqueID, rhs: UniqueID): bool
  {
    LexPrecedes(lhs.tuple, rhs.tuple)
  }

  /** A first difference at k, in favour of a, makes a precede b. */
  lemma {:induction false} PrecedesAtDifference(a: seq<UInt8>, b: seq<UInt8>, k: nat)
    requires |a| == |b| && k < |a| && a[..k] == b[..k] && a[k] < b[k]
    ensures LexPrecedes(a, b)
    decreases k
  {
    if k > 0 {
      assert a[0] == a[..k][0] && b[0] == b[..k][0];
      assert a[1..][..k - 1] == a[..k][1..] && b[1..][..k - 1] == b[..k][1..];
      PrecedesAtDifference(a[1..], b[1..], k - 1);
    }
  }

  /** When a precedes b and both have the same length, they first differ at
      some k, where a is smaller. */
  lemma {:induction false} PrecedesHasDifference(a: seq<UInt8>, b: seq<UInt8>) returns (k: nat)
    requires |a| == |b| && LexPrecedes(a, b)
    ensures k < |a| && a[..k] == b[..k] && a[k] < b[k]
    decreases |a|
  {
    if a[0] < b[0] {
      k := 0;
    } else {
      var j := PrecedesHasDifference(a[1..], b[1..]);
      DifferenceAfterHead(a, b, j);
      k := j + 1;
    }
  }

  lemma DifferenceAfterHead(a: seq<UInt8>, b: seq<UInt8>, j: nat)
    requires |a| == |b| && a != [] && a[0] == b[0]
    requires j < |a| - 1 && a[1..][..j] == b[1..][..j] && a[1..][j] < b[1..][j]
    ensures a[..j + 1] == b[..j + 1] && a[j + 1] < b[j + 1]
  {
    assert a[..j + 1] == [a[0]] + a[1..][..j];
    assert b[..j + 1] == [b[0]] + b[1..][..j];
  }

  /** On equal-length sequences, precedence means: equal up to some position k,
      and smaller at k. */
  lemma LexPrecedesAt(a: seq<UInt8>, b: seq<UInt8>)
    requires |a| == |b|
    ensures LexPrecedes(a, b) <==> exists k :: 0 <= k < |a| && a[..k] == b[..k] && a[k] < b[k]
  {
    if LexPrecedes(a, b) {
      var k := PrecedesHasDifference(a, b);
    }
    if k :| 0 <= k < |a| && a[..k] == b[..k] && a[k] < b[k] {
      PrecedesAtDifference(a, b, k);
    }
  }

  /** `<` is lexicographic order over octets 0..15. */
  lemma LessIffFirstDifference(lhs: UniqueID, rhs: UniqueID)
    ensures Less(lhs, rhs) <==>
      exists k :: 0 <= k < 16 && lhs.tuple[..k] == rhs.tuple[..k] && lhs.tuple[k] < rhs.tuple[k]
  {
    LexPrecedesAt(lhs.tuple, rhs.tuple);
  }

  lemma {:induction false} LexIrreflexive(a: seq<UInt8>)
    ensures !LexPrecedes(a, a)
    decreases |a|
  {
    if a != [] { LexIrreflexive(a[1..]); }
  }

  lemma {:induction false} LexTransitive(a: seq<UInt8>, b: seq<UInt8>, c: seq<UInt8>)
    requires LexPrecedes(a, b) && LexPrecedes(b, c)
    ensures LexPrecedes(a, c)
    decreases |a|
  {
    if a != [] && b != [] && c != [] && a[0] == b[0] == c[0] {
      LexTransitive(a[1..], b[1..], c[1..]);
    }
  }

  lemma {:induction false} LexTrichotomy(a: seq<UInt8>, b: seq<UInt8>)
    ensures a == b || LexPrecedes(a, b) || LexPrecedes(b, a)
    ensures !(LexPrecedes(a, b) && LexPrecedes(b, a))
    decreases |a|
  {
    if a != [] && b != [] && a[0] == b[0] {
      LexTrichotomy(a[1..], b[1..]);
      if a[1..] == b[1..] {
        assert a == [a[0]] + a[1..] && b == [b[0]] + b[1..];
      }
    }
  }

  /** `<` is a strict total order consistent with `==`: irreflexive,
      transitive, and exactly one of `a < b`, `a == b`, `b < a` holds. */
  lemma LessIsStrictTotalOrder(a: UniqueID, b: UniqueID, c: UniqueID)
    ensures !Less(a, a)
    ensures Less(a, b) && Less(b, c) ==> Less(a, c)
    ensures Equal(a, b) || Less(a, b) || Less(b, a)
    ensures !(Less(a, b) && Less(b, a))
    ensures Equal(a, b) ==> !Less(a, b)
  {
    LexIrreflexive(a.tuple);
    if Less(a, b) && Less(b, c) { LexTransitive(a.tuple, b.tuple, c.tuple); }
    LexTrichotomy(a.tuple, b.tuple);
    EqualIffOctetsEqual(a, b);
  }

  // ---------------------------------------------------------------------
  // Version and variant.

  /** The `version` view: the high nibble of octet 6, present only when the
      variant (top two bits of octet 8) is 0b10 (RFC 9562, sections 4.1, 4.2). */
  function Version(id: UniqueID): (v: Option<int>)
    ensures v.Some? <==> id.tuple[8] & 0xC0 == 0x80
    ensures v.Some? ==> 0 <= v.value < 16 && v.value == (id.tuple[6] >> 4) as int
  {
    if (id.tuple[8] >> 6) == 2 then Some(((id.tuple[6] & 0xF0) >> 4) as int) else None
  }

  /** The zero identifier is all-zero octets and carries no version. */
  lemma ZeroHasNoVersion()
    ensures forall i :: 0 <= i < 16 ==> Zero.tuple[i] == 0
    ensures Version(Zero) == None
  {
  }

  // ---------------------------------------------------------------------
  // Construction from bytes, and the bytes copy-out.

  /** What `init?(bytes:)` yields: the first 16 bytes, or nil when the source
      supplies fewer than 16. */
  function FromByteSequence(bytes: seq<UInt8>): (r: Option<UniqueID>)
  {
    if |bytes| < 16 then None else Some(UniqueID(bytes[..16]))
  }

  /** `init?(bytes:)`: initialises a zeroed 16-byte buffer from the sequence,
      counts the bytes copied, and fails unless all 16 were filled. */
  method FromBytes(bytes: seq<UInt8>) returns (r: Option<UniqueID>)
    ensures r.Some? <==> |bytes| >= 16
    ensures r.Some? ==> forall i :: 0 <= i < 16 ==> r.value.tuple[i] == bytes[i]
    ensures r == FromByteSequence(bytes)
  {
    var tuple := new UInt8[16](_ => 0);
    var copied := 0;
    while copied < 16 && copied < |bytes|
      invariant 0 <= copied <= 16 && copied <= |bytes|
      invariant tuple[..copied] == bytes[..copied]
    {
      tuple[copied] := bytes[copied];
      copied := copied + 1;
    }
    if copied != 16 {
      return None;
    }
    assert tuple[..] == bytes[..16];
    r := Some(UniqueID(tuple[..]));
  }

  /** `bytes`: the 16 octets as an independent array value. */
  function Bytes(id: UniqueID): (b: seq<UInt8>)
  {
    id.tuple
  }

  /** `UniqueID(bytes: x.bytes) == x`, and the copy has 16 entries, entry i
      being octet i. */
  lemma BytesRoundTrip(id: UniqueID)
    ensures |Bytes(id)| == 16
    ensures forall i :: 0 <= i < 16 ==> Bytes(id)[i] == id.tuple[i]
    ensures FromByteSequence(Bytes(id)) == Some(id)
  {
    assert id.tuple[..16] == id.tuple;
  }

  /** A byte sequence longer than 16 is accepted, keeping only its first 16
      bytes: the initialiser fails only when too few bytes are supplied. */
  lemma OverlongBytesAccepted(bytes: seq<UInt8>)
    requires |bytes| > 16
    ensures FromByteSequence(bytes) == Some(UniqueID(bytes[..16]))
    ensures FromByteSequence(bytes) == FromByteSequence(bytes[..16])
  {
    assert bytes[..16][..16] == bytes[..16];
  }
}
