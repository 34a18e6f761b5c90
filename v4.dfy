// Random identifiers, `random(using:)` (Sources/UniqueID/v4.swift). The two
// 64-bit draws from the generator arrive as the 16 octets they fill.
module V4 {
  import opened Base
  import opened Layout

  /** The random octets with the version nibble set to 4 and the variant
      bits set to `10`; every other bit is kept. */
  function Stamp(random: Octets): (id: UniqueID)
    ensures id.tuple[6] == (random[6] & 0x0F) | 0x40
    ensures id.tuple[8] == (random[8] & 0x3F) | 0x80
    ensures forall i | 0 <= i < 16 && i != 6 && i != 8 :: id.tuple[i] == random[i]
  {
    UniqueID(random[6 := (random[6] & 0x0F) | 0x40][8 := (random[8] & 0x3F) | 0x80])
  }

  /** `random(using:)`: copy the draws into the storage, then overwrite
      octets 6 and 8 in place. */
  method Random(random: Octets) returns (id: UniqueID)
    ensures id == Stamp(random)
  {
    var storage := new UInt8[16];
    forall i | 0 <= i < 16 {
      storage[i] := random[i];
    }
    // octet 6: the high nibble is the version
    storage[6] := (storage[6] & 0x0F) | 0x40;
    // octet 8: the high two bits are the variant
    storage[8] := (storage[8] & 0x3F) | 0x80;
    id := UniqueID(storage[..]);
  }

  /** Every stamped identifier reports version 4. */
  lemma StampHasVersion4(random: Octets)
    ensures Version(Stamp(random)) == Some(4)
  {
    var id := Stamp(random);
    assert id.tuple[8] & 0xC0 == 0x80;
    assert id.tuple[6] >> 4 == 4;
  }

  /** Stamping a stamped identifier changes nothing. */
  lemma StampIdempotent(random: Octets)
    ensures Stamp(Stamp(random).tuple) == Stamp(random)
  {
    var once := Stamp(random).tuple;
    var twice := Stamp(once).tuple;
    assert twice[6] == once[6] && twice[8] == once[8];
    assert twice == once;
  }

  /** The bits that survive stamping: the low nibble of octet 6, the low six
      bits of octet 8 and all other octets. */
  predicate SameKeptBits(r: Octets, s: Octets)
  {
    && r[6] & 0x0F == s[6] & 0x0F
    && r[8] & 0x3F == s[8] & 0x3F
    && forall i | 0 <= i < 16 && i != 6 && i != 8 :: r[i] == s[i]
  }

  /** Two inputs give the same identifier exactly when they agree on every
      bit stamping keeps. */
  lemma StampSameIffKeptBitsAgree(r: Octets, s: Octets)
    ensures Stamp(r) == Stamp(s) <==> SameKeptBits(r, s)
  {
    if SameKeptBits(r, s) {
      KeptBitsAgreeSameStamp(r, s);
    }
    if Stamp(r) == Stamp(s) {
      SameStampKeptBitsAgree(r, s);
    }
  }

  lemma KeptBitsAgreeSameStamp(r: Octets, s: Octets)
    requires SameKeptBits(r, s)
    ensures Stamp(r) == Stamp(s)
  {
    var a, b := Stamp(r).tuple, Stamp(s).tuple;
    forall i | 0 <= i < 16
      ensures a[i] == b[i]
    {
      if i == 6 {
        assert a[6] == (r[6] & 0x0F) | 0x40;
      } else if i == 8 {
        assert a[8] == (r[8] & 0x3F) | 0x80;
      }
    }
    assert a == b;
  }

  lemma SameStampKeptBitsAgree(r: Octets, s: Octets)
    requires Stamp(r) == Stamp(s)
    ensures SameKeptBits(r, s)
  {
    assert (((r[6] & 0x0F) | 0x40) & 0x0F) == r[6] & 0x0F;
    assert (((s[6] & 0x0F) | 0x40) & 0x0F) == s[6] & 0x0F;
    assert (((r[8] & 0x3F) | 0x80) & 0x3F) == r[8] & 0x3F;
    assert (((s[8] & 0x3F) | 0x80) & 0x3F) == s[8] & 0x3F;
    forall i | 0 <= i < 16 && i != 6 && i != 8
      ensures r[i] == s[i]
    {
      assert Stamp(r).tuple[i] == Stamp(s).tuple[i];
    }
  }

  /** Octet 6 of a version-4 identifier is unchanged by stamping. */
  lemma VersionNibbleKept(b: UInt8)
    requires b >> 4 == 4
    ensures (b & 0x0F) | 0x40 == b
  {
  }

  /** Octet 8 with variant `10` is unchanged by stamping. */
  lemma VariantBitsKept(b: UInt8)
    requires b & 0xC0 == 0x80
    ensures (b & 0x3F) | 0x80 == b
  {
  }

  /** An identifier is its own stamp exactly when it is a version-4 one. */
  lemma StampFixedIffVersion4(id: UniqueID)
    ensures Stamp(id.tuple) == id <==> Version(id) == Some(4)
  {
    var o := id.tuple;
    if Version(id) == Some(4) {
      VersionNibbleKept(o[6]);
      VariantBitsKept(o[8]);
      assert Stamp(o).tuple == o;
    }
    if Stamp(o) == id {
      StampHasVersion4(o);
    }
  }
}
