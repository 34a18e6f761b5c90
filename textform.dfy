// How the parser and the serialiser fit together: `description`,
// `init?(_ description:)` and the `Codable` conformance
// (Sources/UniqueID/UniqueID.swift), which pass through `serialized()` and
// `init?(utf8:)`.
module TextForm {
  import opened Base
  import opened Layout
  import opened Conversion
  import opened Serialization

  // ---------------------------------------------------------------------
  // The digits the serialiser writes are the digits the parser reads.

  /** Digit d of either table is a hex digit standing for d. */
  lemma TableDigit(d: UInt8, uppercase: bool)
    requires d < 16
    ensures IsHexDigit(DigitTable(uppercase)[d as int])
    ensures HexDigitValue(DigitTable(uppercase)[d as int]) == d
  {
    if d == 0 {} else if d == 1 {} else if d == 2 {} else if d == 3 {}
    else if d == 4 {} else if d == 5 {} else if d == 6 {} else if d == 7 {}
    else if d == 8 {} else if d == 9 {} else if d == 10 {} else if d == 11 {}
    else if d == 12 {} else if d == 13 {} else if d == 14 {} else {}
  }

  lemma PairDigits(value: UInt8, uppercase: bool)
    ensures IsHexDigit(HighDigit(value, uppercase)) && IsHexDigit(LowDigit(value, uppercase))
    ensures HexDigitValue(HighDigit(value, uppercase)) == value >> 4
    ensures HexDigitValue(LowDigit(value, uppercase)) == value & 0xF
  {
    TableDigit(value >> 4, uppercase);
    TableDigit(value & 0xF, uppercase);
  }

  /** `parseByte` reads back the octet `writeHex` wrote, in either case. */
  lemma ParseHexPair(value: UInt8, uppercase: bool, rest: seq<UInt8>)
    ensures ParseByte(HexPair(value, uppercase) + rest) == Some(value)
  {
    PairDigits(value, uppercase);
    var s := HexPair(value, uppercase) + rest;
    assert s[0] == HighDigit(value, uppercase) && s[1] == LowDigit(value, uppercase);
    assert (value >> 4) * 16 + (value & 0xF) == value;
  }

  // ---------------------------------------------------------------------
  // Octets in hex with any run of hyphens before each one.

  function Dashes(n: nat): (s: seq<UInt8>)
    ensures |s| == n
  {
    if n == 0 then [] else [Hyphen] + Dashes(n - 1)
  }

  /** Octet k written as two hex digits after `dashes[k]` hyphens. */
  function Spaced(octets: seq<UInt8>, dashes: seq<nat>, uppercase: bool): seq<UInt8>
    requires |dashes| == |octets|
  {
    if octets == [] then []
    else Dashes(dashes[0]) + HexPair(octets[0], uppercase) + Spaced(octets[1..], dashes[1..], uppercase)
  }

  lemma {:induction false} SkipDashes(n: nat, s: seq<UInt8>)
    requires s == [] || s[0] != Hyphen
    ensures SkipHyphens(Dashes(n) + s) == s
  {
    if n == 0 {
      assert Dashes(n) + s == s;
    } else {
      assert (Dashes(n) + s)[1..] == Dashes(n - 1) + s;
      SkipDashes(n - 1, s);
    }
  }

  /** One octet behind a run of hyphens is read in one step. */
  lemma ParseSpacedOctet(dashes: nat, value: UInt8, uppercase: bool, later: seq<UInt8>, n: nat)
    requires n > 0
    ensures ParseOctets(Dashes(dashes) + HexPair(value, uppercase) + later, n)
      == Prepend([value], ParseOctets(later, n - 1))
  {
    var digits := HexPair(value, uppercase) + later;
    var s := Dashes(dashes) + HexPair(value, uppercase) + later;
    assert s == Dashes(dashes) + digits;
    PairDigits(value, uppercase);
    SkipDashes(dashes, digits);
    ParseHexPair(value, uppercase, later);
    ParseOctetsStep(s, n);
    assert digits[2..] == later;
  }

  /** One octet behind a run of hyphens reads as that octet. */
  lemma ReadsOctet(dashes: nat, value: UInt8, uppercase: bool)
    ensures Reads(Dashes(dashes) + HexPair(value, uppercase), [value])
  {
    forall rest: seq<UInt8>, n: nat | n >= |[value]|
      ensures ParseOctets(Dashes(dashes) + HexPair(value, uppercase) + rest, n)
        == Prepend([value], ParseOctets(rest, n - |[value]|))
    {
      ParseSpacedOctet(dashes, value, uppercase, rest, n);
    }
  }

  lemma ReadsNothing()
    ensures Reads([], [])
  {
    forall rest: seq<UInt8>, n: nat
      ensures ParseOctets([] + rest, n) == Prepend([], ParseOctets(rest, n))
    {
      PrependEmpty(ParseOctets(rest, n));
      assert [] + rest == rest;
    }
  }

  /** A spaced run of octets reads as those octets, whatever the hyphens. */
  lemma {:induction false} ReadsSpaced(octets: seq<UInt8>, dashes: seq<nat>, uppercase: bool)
    requires |dashes| == |octets|
    ensures Reads(Spaced(octets, dashes, uppercase), octets)
    decreases |octets|
  {
    if octets == [] {
      ReadsNothing();
    } else {
      ReadsSpaced(octets[1..], dashes[1..], uppercase);
      ReadsSpacedStep(octets, dashes, uppercase);
    }
  }

  lemma ReadsSpacedStep(octets: seq<UInt8>, dashes: seq<nat>, uppercase: bool)
    requires |dashes| == |octets| && octets != []
    requires Reads(Spaced(octets[1..], dashes[1..], uppercase), octets[1..])
    ensures Reads(Spaced(octets, dashes, uppercase), octets)
  {
    ReadsOctet(dashes[0], octets[0], uppercase);
    ReadsConcat(Dashes(dashes[0]) + HexPair(octets[0], uppercase), [octets[0]],
      Spaced(octets[1..], dashes[1..], uppercase), octets[1..]);
    assert [octets[0]] + octets[1..] == octets;
  }

  function Zeros(n: nat): (s: seq<nat>)
    ensures |s| == n && forall i | 0 <= i < n :: s[i] == 0
  {
    seq(n, _ => 0)
  }

  lemma {:induction false} HexIsSpaced(octets: seq<UInt8>, uppercase: bool)
    ensures Hex(octets, uppercase) == Spaced(octets, Zeros(|octets|), uppercase)
    decreases |octets|
  {
    if octets != [] {
      HexIsSpaced(octets[1..], uppercase);
      assert Zeros(|octets|)[1..] == Zeros(|octets| - 1);
      assert Dashes(0) + HexPair(octets[0], uppercase) == HexPair(octets[0], uppercase);
    }
  }

  /** Hex digits read as their octets. */
  lemma ReadsHex(octets: seq<UInt8>, uppercase: bool)
    ensures Reads(Hex(octets, uppercase), octets)
  {
    HexIsSpaced(octets, uppercase);
    ReadsSpaced(octets, Zeros(|octets|), uppercase);
  }

  /** A separator in front of an octet is skipped. */
  lemma ParseAfterSeparator(separators: bool, s: seq<UInt8>, n: nat)
    requires n > 0
    ensures ParseOctets(Separator(separators) + s, n) == ParseOctets(s, n)
  {
    if separators {
      assert (Separator(separators) + s)[1..] == s;
    } else {
      assert Separator(separators) + s == s;
    }
  }

  /** `text` reads as `octets`: reading n >= |octets| octets from it, and
      whatever follows it, yields those octets, then what the rest yields. */
  ghost predicate Reads(text: seq<UInt8>, octets: seq<UInt8>)
  {
    forall rest: seq<UInt8>, n: nat {:trigger ParseOctets(text + rest, n)} :: n >= |octets| ==>
      ParseOctets(text + rest, n) == Prepend(octets, ParseOctets(rest, n - |octets|))
  }

  /** A separator before at least one octet changes nothing. */
  lemma ReadsAfterSeparator(separators: bool, text: seq<UInt8>, octets: seq<UInt8>)
    requires octets != [] && Reads(text, octets)
    ensures Reads(Separator(separators) + text, octets)
  {
    forall rest: seq<UInt8>, n: nat | n >= |octets|
      ensures ParseOctets(Separator(separators) + text + rest, n)
        == Prepend(octets, ParseOctets(rest, n - |octets|))
    {
      assert Separator(separators) + text + rest == Separator(separators) + (text + rest);
      ParseAfterSeparator(separators, text + rest, n);
    }
  }

  /** Two texts in a row read as their octets in a row. */
  lemma ReadsConcat(a: seq<UInt8>, x: seq<UInt8>, b: seq<UInt8>, y: seq<UInt8>)
    requires Reads(a, x) && Reads(b, y)
    ensures Reads(a + b, x + y)
  {
    forall rest: seq<UInt8>, n: nat | n >= |x + y|
      ensures ParseOctets(a + b + rest, n) == Prepend(x + y, ParseOctets(rest, n - |x + y|))
    {
      ReadsInOrder(a, x, b, y, rest, n);
    }
  }

  lemma ReadsInOrder(a: seq<UInt8>, x: seq<UInt8>, b: seq<UInt8>, y: seq<UInt8>, rest: seq<UInt8>, n: nat)
    requires Reads(a, x) && Reads(b, y) && n >= |x| + |y|
    ensures ParseOctets(a + b + rest, n) == Prepend(x + y, ParseOctets(rest, n - |x + y|))
  {
    assert a + b + rest == a + (b + rest);
    assert ParseOctets(a + (b + rest), n) == Prepend(x, ParseOctets(b + rest, n - |x|));
    assert ParseOctets(b + rest, n - |x|) == Prepend(y, ParseOctets(rest, n - |x| - |y|));
    PrependTwice(x, y, ParseOctets(rest, n - |x| - |y|));
  }

  /** Group g, after its separator, reads as the group's octets. */
  lemma ReadsGroup(o: Octets, uppercase: bool, separators: bool, g: nat)
    requires 1 <= g < 5
    ensures Reads(Separator(separators) + Hex(o[GroupStarts[g]..GroupEnds[g]], uppercase),
      o[GroupStarts[g]..GroupEnds[g]])
  {
    GroupNonEmpty(o, g);
    ReadsHex(o[GroupStarts[g]..GroupEnds[g]], uppercase);
    ReadsAfterSeparator(separators, Hex(o[GroupStarts[g]..GroupEnds[g]], uppercase),
      o[GroupStarts[g]..GroupEnds[g]]);
  }

  lemma GroupNonEmpty(o: Octets, g: nat)
    requires 1 <= g < 5
    ensures o[GroupStarts[g]..GroupEnds[g]] != []
  {
    if g == 1 {} else if g == 2 {} else if g == 3 {} else {}
  }

  /** Group g starts where group g - 1 ends. */
  lemma GroupsAdjoin(o: Octets, g: nat)
    requires 1 <= g < 5
    ensures o[..GroupEnds[g - 1]] + o[GroupStarts[g]..GroupEnds[g]] == o[..GroupEnds[g]]
  {
    if g == 1 {} else if g == 2 {} else if g == 3 {} else {}
  }

  lemma ThroughUnfold(o: Octets, uppercase: bool, separators: bool, g: nat)
    requires 1 <= g < 5
    ensures Through(o, uppercase, separators, g)
      == Through(o, uppercase, separators, g - 1)
        + (Separator(separators) + Hex(o[GroupStarts[g]..GroupEnds[g]], uppercase))
  {
  }

  /** The text through group g reads as the octets of the groups up to g. */
  lemma {:induction false} ReadsThrough(o: Octets, uppercase: bool, separators: bool, g: nat)
    requires g < 5
    ensures Reads(Through(o, uppercase, separators, g), o[..GroupEnds[g]])
    decreases g
  {
    if g == 0 {
      ReadsHex(o[0..4], uppercase);
      assert o[..4] == o[0..4];
    } else {
      ReadsThrough(o, uppercase, separators, g - 1);
      ReadsThroughStep(o, uppercase, separators, g);
    }
  }

  lemma ReadsThroughStep(o: Octets, uppercase: bool, separators: bool, g: nat)
    requires 1 <= g < 5
    requires Reads(Through(o, uppercase, separators, g - 1), o[..GroupEnds[g - 1]])
    ensures Reads(Through(o, uppercase, separators, g), o[..GroupEnds[g]])
  {
    ReadsGroup(o, uppercase, separators, g);
    ReadsConcat(Through(o, uppercase, separators, g - 1), o[..GroupEnds[g - 1]],
      Separator(separators) + Hex(o[GroupStarts[g]..GroupEnds[g]], uppercase), o[GroupStarts[g]..GroupEnds[g]]);
    ThroughUnfold(o, uppercase, separators, g);
    GroupsAdjoin(o, g);
  }

  /** Reading 16 octets from the text and more yields the identifier and
      leaves exactly the more. */
  lemma ParseTextPrefix(id: UniqueID, uppercase: bool, separators: bool, rest: seq<UInt8>)
    ensures ParseOctets(Text(id, uppercase, separators) + rest, 16) == Some((id.tuple, rest))
  {
    ReadsThrough(id.tuple, uppercase, separators, 4);
    assert ParseOctets(Through(id.tuple, uppercase, separators, 4) + rest, 16)
      == Prepend(id.tuple[..16], ParseOctets(rest, 0));
    assert id.tuple[..16] + [] == id.tuple;
  }

  lemma TextStartsWithDigit(id: UniqueID, uppercase: bool, separators: bool)
    ensures |Text(id, uppercase, separators)| > 0
    ensures IsHexDigit(Text(id, uppercase, separators)[0])
  {
    TextOctetAt(id, uppercase, separators, 0);
    PairDigits(id.tuple[0], uppercase);
  }

  // ---------------------------------------------------------------------
  // Round trips and what the parser rejects.

  /** Every form `serialized` can produce parses back to the identifier. */
  lemma ParseSerialized(id: UniqueID, uppercase: bool, separators: bool)
    ensures Parse(Text(id, uppercase, separators)) == Some(id)
  {
    TextStartsWithDigit(id, uppercase, separators);
    ParseTextPrefix(id, uppercase, separators, []);
    assert Text(id, uppercase, separators) + [] == Text(id, uppercase, separators);
  }

  /** Text in any mix of cases parses to the identifier its lower-case
      form spells. */
  lemma MixedCaseParses(s: seq<UInt8>, id: UniqueID, separators: bool)
    requires FoldCase(s) == Text(id, false, separators)
    ensures Parse(s) == Some(id)
  {
    ParseIgnoresCase(s);
    ParseSerialized(id, false, separators);
  }

  /** So does the same text between curly braces. */
  lemma ParseBraced(id: UniqueID, uppercase: bool, separators: bool)
    ensures Parse([LeftBrace] + Text(id, uppercase, separators) + [RightBrace]) == Some(id)
  {
    var t := Text(id, uppercase, separators);
    var s := [LeftBrace] + t + [RightBrace];
    assert s[1..|s| - 1] == t;
    ParseTextPrefix(id, uppercase, separators, []);
    assert t + [] == t;
  }

  /** Any number of hyphens before any octet is accepted, including before
      the first one. */
  lemma ParseAnyHyphens(id: UniqueID, dashes: seq<nat>, uppercase: bool)
    requires |dashes| == 16
    ensures Parse(Spaced(id.tuple, dashes, uppercase)) == Some(id)
  {
    var s := Spaced(id.tuple, dashes, uppercase);
    ReadsSpaced(id.tuple, dashes, uppercase);
    assert ParseOctets(s + [], 16) == Prepend(id.tuple, ParseOctets([], 0));
    assert s + [] == s;
    PrependEmpty(ParseOctets([], 0));
    assert id.tuple + [] == id.tuple;
    assert s == Dashes(dashes[0]) + HexPair(id.tuple[0], uppercase) + Spaced(id.tuple[1..], dashes[1..], uppercase);
    PairDigits(id.tuple[0], uppercase);
    if dashes[0] == 0 {
      assert s[0] == HighDigit(id.tuple[0], uppercase);
    } else {
      assert s[0] == Hyphen;
    }
  }

  /** Anything after the last octet, a trailing hyphen included, is rejected. */
  lemma TrailingInputRejected(id: UniqueID, uppercase: bool, separators: bool, tail: seq<UInt8>)
    requires tail != []
    ensures Parse(Text(id, uppercase, separators) + tail) == None
  {
    TextStartsWithDigit(id, uppercase, separators);
    ParseTextPrefix(id, uppercase, separators, tail);
  }

  /** A hyphen between the two digits of an octet is rejected: hyphens are
      skipped only before an octet. */
  lemma HyphenInsideOctetRejected(id: UniqueID, uppercase: bool, k: nat, rest: seq<UInt8>)
    requires k < 16
    ensures ParseDigits(Hex(id.tuple[..k], uppercase)
      + [HighDigit(id.tuple[k], uppercase), Hyphen, LowDigit(id.tuple[k], uppercase)] + rest) == None
  {
    SplitOctetAfterHex(id.tuple[..k], id.tuple[k], uppercase, rest);
  }

  lemma SplitOctetAfterHex(octets: seq<UInt8>, value: UInt8, uppercase: bool, rest: seq<UInt8>)
    requires |octets| < 16
    ensures ParseOctets(Hex(octets, uppercase)
      + [HighDigit(value, uppercase), Hyphen, LowDigit(value, uppercase)] + rest, 16) == None
  {
    var later := [HighDigit(value, uppercase), Hyphen, LowDigit(value, uppercase)] + rest;
    assert Hex(octets, uppercase) + [HighDigit(value, uppercase), Hyphen, LowDigit(value, uppercase)] + rest
      == Hex(octets, uppercase) + later;
    SplitOctetRejected(value, uppercase, rest, 16 - |octets|);
    HexThenRejected(octets, uppercase, later, 16);
  }

  lemma HexThenRejected(octets: seq<UInt8>, uppercase: bool, later: seq<UInt8>, n: nat)
    requires n >= |octets| && ParseOctets(later, n - |octets|) == None
    ensures ParseOctets(Hex(octets, uppercase) + later, n) == None
  {
    ReadsHex(octets, uppercase);
    ReadsThenRejected(Hex(octets, uppercase), octets, later, n);
  }

  /** Whatever the text after a readable prefix fails on, the whole fails on. */
  lemma ReadsThenRejected(text: seq<UInt8>, octets: seq<UInt8>, later: seq<UInt8>, n: nat)
    requires Reads(text, octets) && n >= |octets|
    requires ParseOctets(later, n - |octets|) == None
    ensures ParseOctets(text + later, n) == None
  {
  }

  /** An octet whose two digits are split by a hyphen does not parse. */
  lemma SplitOctetRejected(value: UInt8, uppercase: bool, rest: seq<UInt8>, n: nat)
    requires n > 0
    ensures ParseOctets([HighDigit(value, uppercase), Hyphen, LowDigit(value, uppercase)] + rest, n) == None
  {
    var s := [HighDigit(value, uppercase), Hyphen, LowDigit(value, uppercase)] + rest;
    PairDigits(value, uppercase);
    assert SkipHyphens(s) == s;
    ParseOctetsStep(s, n);
  }

  /** Brace trimming: a '{' without a closing '}' is rejected. */
  lemma UnmatchedBraceRejected(utf8: seq<UInt8>)
    requires |utf8| > 0 && utf8[0] == LeftBrace && utf8[|utf8| - 1] != RightBrace
    ensures Parse(utf8) == None
  {
  }

  /** Each octet takes two characters, so a successful read of n octets
      consumed at least 2n of them. */
  lemma {:induction false} ParseOctetsConsumes(s: seq<UInt8>, n: nat)
    ensures ParseOctets(s, n).Some? ==> 2 * n + |ParseOctets(s, n).value.1| <= |s|
    decreases n
  {
    if n > 0 {
      var t := SkipHyphens(s);
      if ParseByte(t).Some? {
        ParseOctetsConsumes(t[2..], n - 1);
      }
    }
  }

  /** Fewer than 32 characters never make an identifier. */
  lemma ShortInputRejected(utf8: seq<UInt8>)
    requires |utf8| < 32
    ensures Parse(utf8) == None
  {
    match TrimBraces(utf8)
    case None =>
    case Some(digits) =>
      ParseOctetsConsumes(digits, 16);
  }

  // ---------------------------------------------------------------------
  // `description`, `init?(_:)` and `Codable`.

  /** `description`: lowercase with separators. */
  method Description(id: UniqueID) returns (text: seq<UInt8>)
    ensures text == Text(id, false, true)
    ensures |text| == 36
  {
    text := Serialized(id, false, true);
  }

  /** `init?(_ description:)`, and `init(from:)` which fails where this is nil. */
  method FromDescription(text: seq<UInt8>) returns (r: Option<UniqueID>)
    ensures r == Parse(text)
  {
    r := InitUTF8(text);
  }

  /** `encode(to:)` writes the description and `init(from:)` reads it back. */
  method CodableRoundTrip(id: UniqueID) returns (decoded: Option<UniqueID>)
    ensures decoded == Some(id)
  {
    var encoded := Description(id);
    decoded := FromDescription(encoded);
    ParseSerialized(id, false, true);
  }
}
