// The text serialiser: `serialized(uppercase:separators:)`, `serialize(into:)`
// and the buffer writers `writeHex_uppercase`, `writeHex_lowercase`,
// `writeHex` and `writeDash` (Sources/UniqueID/Serialization.swift).
module Serialization {
  import opened Base
  import opened Layout

  /** "0123456789ABCDEF" as ASCII bytes. */
  const UppercaseDigits: seq<UInt8> :=
    [0x30, 0x31, 0x32, 0x33, 0x34, 0x35, 0x36, 0x37, 0x38, 0x39, 0x41, 0x42, 0x43, 0x44, 0x45, 0x46]

  /** "0123456789abcdef" as ASCII bytes. */
  const LowercaseDigits: seq<UInt8> :=
    [0x30, 0x31, 0x32, 0x33, 0x34, 0x35, 0x36, 0x37, 0x38, 0x39, 0x61, 0x62, 0x63, 0x64, 0x65, 0x66]

  function DigitTable(uppercase: bool): (table: seq<UInt8>)
    ensures |table| == 16
  {
    if uppercase then UppercaseDigits else LowercaseDigits
  }

  // ---------------------------------------------------------------------
  // The text, as a value.

  /** The digit written for the high nibble of an octet. */
  function HighDigit(value: UInt8, uppercase: bool): UInt8
  {
    DigitTable(uppercase)[(value >> 4) as int]
  }

  /** The digit written for the low nibble of an octet. */
  function LowDigit(value: UInt8, uppercase: bool): UInt8
  {
    DigitTable(uppercase)[(value & 0xF) as int]
  }

  /** The two characters written for one octet: high nibble, then low. */
  function HexPair(value: UInt8, uppercase: bool): seq<UInt8>
  {
    [HighDigit(value, uppercase), LowDigit(value, uppercase)]
  }

  /** The characters written for a run of octets, in order. */
  function Hex(octets: seq<UInt8>, uppercase: bool): (text: seq<UInt8>)
    ensures |text| == 2 * |octets|
  {
    if octets == [] then [] else HexPair(octets[0], uppercase) + Hex(octets[1..], uppercase)
  }

  function Separator(separators: bool): seq<UInt8>
  {
    if separators then [Hyphen] else []
  }

  /** How many separators precede group g. */
  function SeparatorsBefore(separators: bool, g: nat): nat
  {
    if separators then g else 0
  }

  /** The buffer size `serialized` allocates. */
  function Capacity(separators: bool): nat
  {
    32 + (if separators then 4 else 0)
  }

  /** The octet ranges of the five groups: 0..<4, 4..<6, 6..<8, 8..<10, 10..<16. */
  const GroupStarts: seq<nat> := [0, 4, 6, 8, 10]
  const GroupEnds: seq<nat> := [4, 6, 8, 10, 16]

  /** The text up to and including group g: each group's octets as hex
      digits, with a separator before every group but the first. */
  function Through(o: Octets, uppercase: bool, separators: bool, g: nat): (t: seq<UInt8>)
    requires g < 5
    ensures |t| == 2 * GroupEnds[g] + SeparatorsBefore(separators, g)
  {
    if g == 0 then
      Hex(o[0..4], uppercase)
    else
      Through(o, uppercase, separators, g - 1) + Separator(separators)
        + Hex(o[GroupStarts[g]..GroupEnds[g]], uppercase)
  }

  /** The text `serialized` produces: all five groups, 8-4-4-4-12 digits. */
  function Text(id: UniqueID, uppercase: bool, separators: bool): seq<UInt8>
  {
    Through(id.tuple, uppercase, separators, 4)
  }

  // ---------------------------------------------------------------------
  // Facts about the text.

  lemma {:induction false} HexAppend(a: seq<UInt8>, b: seq<UInt8>, uppercase: bool)
    ensures Hex(a + b, uppercase) == Hex(a, uppercase) + Hex(b, uppercase)
    decreases |a|
  {
    if a != [] {
      assert (a + b)[0] == a[0];
      assert (a + b)[1..] == a[1..] + b;
      HexAppend(a[1..], b, uppercase);
    } else {
      assert a + b == b;
    }
  }

  lemma {:induction false} HexAt(octets: seq<UInt8>, j: nat, uppercase: bool)
    requires j < |octets|
    ensures Hex(octets, uppercase)[2 * j] == HighDigit(octets[j], uppercase)
    ensures Hex(octets, uppercase)[2 * j + 1] == LowDigit(octets[j], uppercase)
    decreases j
  {
    if j > 0 {
      HexAt(octets[1..], j - 1, uppercase);
    }
  }

  /** The output is 32 characters, 36 with separators. */
  lemma TextLength(id: UniqueID, uppercase: bool, separators: bool)
    ensures |Text(id, uppercase, separators)| == Capacity(separators)
  {
  }

  /** The group that octet k belongs to. */
  function GroupOf(k: nat): (g: nat)
    requires k < 16
    ensures g < 5 && GroupStarts[g] <= k < GroupEnds[g]
  {
    if k < 4 then 0 else if k < 6 then 1 else if k < 8 then 2 else if k < 10 then 3 else 4
  }

  /** Where the first digit of octet k lands: two characters per octet, plus
      one separator for every group before its own. */
  function Position(k: nat, separators: bool): nat
    requires k < 16
  {
    2 * k + SeparatorsBefore(separators, GroupOf(k))
  }

  /** The text before group g. */
  function Before(o: Octets, uppercase: bool, separators: bool, g: nat): (t: seq<UInt8>)
    requires g < 5
    ensures |t| == 2 * GroupStarts[g] + SeparatorsBefore(separators, g)
    ensures t + Hex(o[GroupStarts[g]..GroupEnds[g]], uppercase) == Through(o, uppercase, separators, g)
  {
    if g == 0 then [] else Through(o, uppercase, separators, g - 1) + Separator(separators)
  }

  lemma {:induction false} ThroughExtends(o: Octets, uppercase: bool, separators: bool, g: nat, h: nat)
    requires g <= h < 5
    ensures Through(o, uppercase, separators, g) <= Through(o, uppercase, separators, h)
    decreases h
  {
    if g < h {
      ThroughExtends(o, uppercase, separators, g, h - 1);
      ThroughStep(o, uppercase, separators, h);
      PrefixTransitive(Through(o, uppercase, separators, g), Through(o, uppercase, separators, h - 1),
        Through(o, uppercase, separators, h));
    }
  }

  lemma ThroughStep(o: Octets, uppercase: bool, separators: bool, g: nat)
    requires 1 <= g < 5
    ensures Through(o, uppercase, separators, g - 1) <= Through(o, uppercase, separators, g)
  {
    var d := Separator(separators) + Hex(o[GroupStarts[g]..GroupEnds[g]], uppercase);
    Extends(Through(o, uppercase, separators, g - 1), d, Through(o, uppercase, separators, g));
  }

  lemma PrefixTransitive(a: seq<UInt8>, b: seq<UInt8>, c: seq<UInt8>)
    requires a <= b && b <= c
    ensures a <= c
  {
  }

  /** The digits of octet j of a group that ends a prefix of the text. */
  lemma HexWithin(prefix: seq<UInt8>, group: seq<UInt8>, j: nat, uppercase: bool, i: nat, v: UInt8)
    requires j < |group| && group[j] == v && i == |prefix| + 2 * j
    ensures i + 1 < |prefix + Hex(group, uppercase)|
    ensures (prefix + Hex(group, uppercase))[i] == HighDigit(v, uppercase)
    ensures (prefix + Hex(group, uppercase))[i + 1] == LowDigit(v, uppercase)
  {
    var h := Hex(group, uppercase);
    HexAt(group, j, uppercase);
    assert (prefix + h)[i] == h[2 * j];
    assert (prefix + h)[i + 1] == h[2 * j + 1];
  }

  lemma Extends(a: seq<UInt8>, b: seq<UInt8>, c: seq<UInt8>)
    requires c == a + b
    ensures a <= c
  {
  }

  lemma PrefixIndex(a: seq<UInt8>, b: seq<UInt8>, i: nat)
    requires a <= b && i + 1 < |a|
    ensures b[i] == a[i] && b[i + 1] == a[i + 1]
  {
  }

  /** The digits of octet j of a group, in any text that starts with the
      group and what precedes it. */
  lemma GroupOctetAt(t: seq<UInt8>, prefix: seq<UInt8>, group: seq<UInt8>, j: nat, uppercase: bool, i: nat, v: UInt8)
    requires j < |group| && group[j] == v && i == |prefix| + 2 * j
    requires prefix + Hex(group, uppercase) <= t
    ensures i + 1 < |t|
    ensures t[i] == HighDigit(v, uppercase)
    ensures t[i + 1] == LowDigit(v, uppercase)
  {
    HexWithin(prefix, group, j, uppercase, i, v);
    PrefixIndex(prefix + Hex(group, uppercase), t, i);
  }

  /** Group g, with everything before it, starts the text. */
  lemma GroupWithinText(o: Octets, uppercase: bool, separators: bool, g: nat)
    requires g < 5
    ensures Before(o, uppercase, separators, g) + Hex(o[GroupStarts[g]..GroupEnds[g]], uppercase)
      <= Through(o, uppercase, separators, 4)
  {
    ThroughExtends(o, uppercase, separators, g, 4);
  }

  /** Octet k is written as two digits of the selected case, high nibble first. */
  lemma TextOctetAt(id: UniqueID, uppercase: bool, separators: bool, k: nat)
    requires k < 16
    ensures Position(k, separators) + 1 < |Text(id, uppercase, separators)|
    ensures Text(id, uppercase, separators)[Position(k, separators)]
      == HighDigit(id.tuple[k], uppercase)
    ensures Text(id, uppercase, separators)[Position(k, separators) + 1]
      == LowDigit(id.tuple[k], uppercase)
  {
    var o := id.tuple;
    var g := GroupOf(k);
    var group := o[GroupStarts[g]..GroupEnds[g]];
    var prefix := Before(o, uppercase, separators, g);
    var j := k - GroupStarts[g];
    assert group[j] == o[k];
    assert Position(k, separators) == |prefix| + 2 * j;
    GroupWithinText(o, uppercase, separators, g);
    GroupOctetAt(Text(id, uppercase, separators), prefix, group, j, uppercase, Position(k, separators), o[k]);
  }

  /** Where the separators go: before octets 4, 6, 8 and 10. */
  function DashPositions(separators: bool): set<nat>
  {
    if separators then {8, 13, 18, 23} else {}
  }

  lemma DigitsInTable(value: UInt8, uppercase: bool)
    ensures HighDigit(value, uppercase) in DigitTable(uppercase)
    ensures LowDigit(value, uppercase) in DigitTable(uppercase)
  {
  }

  lemma HexDigitsOnly(octets: seq<UInt8>, uppercase: bool)
    ensures forall i | 0 <= i < |Hex(octets, uppercase)| :: Hex(octets, uppercase)[i] in DigitTable(uppercase)
  {
    forall i | 0 <= i < |Hex(octets, uppercase)|
      ensures Hex(octets, uppercase)[i] in DigitTable(uppercase)
    {
      HexAt(octets, i / 2, uppercase);
      DigitsInTable(octets[i / 2], uppercase);
    }
  }

  lemma DigitsBetweenSeparators(separators: bool, g: nat, i: nat)
    requires g < 5
    requires 2 * GroupStarts[g] + SeparatorsBefore(separators, g) <= i < 2 * GroupEnds[g] + SeparatorsBefore(separators, g)
    ensures i !in DashPositions(separators)
  {
    if separators {
      if g == 0 { assert i < 8; } else if g == 1 { assert 9 <= i < 13; }
      else if g == 2 { assert 14 <= i < 18; } else if g == 3 { assert 19 <= i < 23; }
      else { assert 24 <= i; }
    }
  }

  /** Hyphens exactly at the separator positions, digits of the selected case
      everywhere else. */
  predicate WellPlaced(t: seq<UInt8>, uppercase: bool, separators: bool)
  {
    forall i | 0 <= i < |t| ::
      (i in DashPositions(separators) ==> t[i] == Hyphen)
      && (i !in DashPositions(separators) ==> t[i] in DigitTable(uppercase))
  }

  lemma SeparatorPosition(separators: bool, g: nat, i: nat)
    requires 1 <= g < 5 && separators
    requires i == 2 * GroupStarts[g] + SeparatorsBefore(separators, g - 1)
    ensures i in DashPositions(separators)
  {
    if g == 1 { assert i == 8; } else if g == 2 { assert i == 13; }
    else if g == 3 { assert i == 18; } else { assert i == 23; }
  }

  lemma AppendGroupWellPlaced(previous: seq<UInt8>, group: seq<UInt8>, uppercase: bool, separators: bool, g: nat)
    requires 1 <= g < 5 && |group| == GroupEnds[g] - GroupStarts[g]
    requires |previous| == 2 * GroupEnds[g - 1] + SeparatorsBefore(separators, g - 1)
    requires WellPlaced(previous, uppercase, separators)
    ensures WellPlaced(previous + Separator(separators) + Hex(group, uppercase), uppercase, separators)
  {
    var t := previous + Separator(separators) + Hex(group, uppercase);
    HexDigitsOnly(group, uppercase);
    forall i | 0 <= i < |t|
      ensures i in DashPositions(separators) ==> t[i] == Hyphen
      ensures i !in DashPositions(separators) ==> t[i] in DigitTable(uppercase)
    {
      if i < |previous| {
        assert t[i] == previous[i];
      } else {
        AppendedCharacter(previous, group, uppercase, separators, g, i);
      }
    }
  }

  lemma AppendedCharacter(previous: seq<UInt8>, group: seq<UInt8>, uppercase: bool, separators: bool, g: nat, i: nat)
    requires 1 <= g < 5 && |group| == GroupEnds[g] - GroupStarts[g]
    requires |previous| == 2 * GroupEnds[g - 1] + SeparatorsBefore(separators, g - 1)
    requires forall k | 0 <= k < |Hex(group, uppercase)| :: Hex(group, uppercase)[k] in DigitTable(uppercase)
    requires |previous| <= i < |previous + Separator(separators) + Hex(group, uppercase)|
    ensures var t := previous + Separator(separators) + Hex(group, uppercase);
      (i in DashPositions(separators) ==> t[i] == Hyphen)
      && (i !in DashPositions(separators) ==> t[i] in DigitTable(uppercase))
  {
    var d := Separator(separators);
    var h := Hex(group, uppercase);
    var t := previous + d + h;
    if i < |previous| + |d| {
      assert t[i] == Hyphen;
      SeparatorPosition(separators, g, i);
    } else {
      assert t[i] == h[i - |previous| - |d|];
      DigitsBetweenSeparators(separators, g, i);
    }
  }

  lemma {:induction false} ThroughCharacters(o: Octets, uppercase: bool, separators: bool, g: nat)
    requires g < 5
    ensures WellPlaced(Through(o, uppercase, separators, g), uppercase, separators)
  {
    var t := Through(o, uppercase, separators, g);
    var group := o[GroupStarts[g]..GroupEnds[g]];
    if g == 0 {
      HexDigitsOnly(group, uppercase);
      forall i | 0 <= i < |t|
        ensures i !in DashPositions(separators)
      {
        DigitsBetweenSeparators(separators, 0, i);
      }
    } else {
      ThroughCharacters(o, uppercase, separators, g - 1);
      AppendGroupWellPlaced(Through(o, uppercase, separators, g - 1), group, uppercase, separators, g);
    }
  }

  /** Every character of the text is a digit of the selected case, except the
      four separators, which are hyphens; without separators there are none. */
  lemma TextCharacters(id: UniqueID, uppercase: bool, separators: bool)
    ensures var t := Text(id, uppercase, separators);
      forall i | 0 <= i < |t| ::
        (i in DashPositions(separators) ==> t[i] == Hyphen)
        && (i !in DashPositions(separators) ==> t[i] in DigitTable(uppercase))
    ensures Hyphen !in DigitTable(uppercase)
  {
    ThroughCharacters(id.tuple, uppercase, separators, 4);
  }

  // ---------------------------------------------------------------------
  // The buffer writers. Each stores into `buffer` at `i` and returns the
  // index after what it wrote.

  method WriteHexUppercase(buffer: array<UInt8>, value: UInt8, i: nat) returns (next: nat)
    requires i + 2 <= buffer.Length
    modifies buffer
    ensures next == i + 2
    ensures buffer[..] == old(buffer[..])[i := HighDigit(value, true)][i + 1 := LowDigit(value, true)]
  {
    var table := UppercaseDigits;
    buffer[i] := table[(value >> 4) as int];
    buffer[i + 1] := table[(value & 0xF) as int];
    next := i + 2;
  }

  method WriteHexLowercase(buffer: array<UInt8>, value: UInt8, i: nat) returns (next: nat)
    requires i + 2 <= buffer.Length
    modifies buffer
    ensures next == i + 2
    ensures buffer[..] == old(buffer[..])[i := HighDigit(value, false)][i + 1 := LowDigit(value, false)]
  {
    var table := LowercaseDigits;
    buffer[i] := table[(value >> 4) as int];
    buffer[i + 1] := table[(value & 0xF) as int];
    next := i + 2;
  }

  method WriteHex(buffer: array<UInt8>, value: UInt8, i: nat, uppercase: bool) returns (next: nat)
    requires i + 2 <= buffer.Length
    modifies buffer
    ensures next == i + 2
    ensures buffer[..i] == old(buffer[..i])
    ensures buffer[i..next] == HexPair(value, uppercase)
    ensures buffer[next..] == old(buffer[next..])
  {
    if uppercase {
      next := WriteHexUppercase(buffer, value, i);
    } else {
      next := WriteHexLowercase(buffer, value, i);
    }
  }

  method WriteDash(buffer: array<UInt8>, i: nat) returns (next: nat)
    requires i < buffer.Length
    modifies buffer
    ensures next == i + 1
    ensures buffer[..i] == old(buffer[..i]) && buffer[i] == Hyphen
    ensures buffer[next..] == old(buffer[next..])
  {
    buffer[i] := Hyphen;
    next := i + 1;
  }

  /** One `for octetPosition in from..<to` loop of `serialize(into:)`. */
  method WriteGroup(buffer: array<UInt8>, octets: Octets, from: nat, to: nat, i: nat, uppercase: bool)
    returns (next: nat)
    requires from <= to <= 16 && i + 2 * (to - from) <= buffer.Length
    modifies buffer
    ensures next == i + 2 * (to - from)
    ensures buffer[..i] == old(buffer[..i])
    ensures buffer[i..next] == Hex(octets[from..to], uppercase)
    ensures buffer[next..] == old(buffer[next..])
  {
    next := i;
    for octetPosition := from to to
      invariant next == i + 2 * (octetPosition - from)
      invariant buffer[..i] == old(buffer[..i])
      invariant buffer[i..next] == Hex(octets[from..octetPosition], uppercase)
      invariant buffer[next..] == old(buffer[next..])
    {
      ghost var before := buffer[..];
      var at := next;
      next := WriteHex(buffer, octets[octetPosition], next, uppercase);
      PairWritten(before, buffer[..], i, at, HexPair(octets[octetPosition], uppercase));
      HexExtend(octets, from, octetPosition, uppercase);
    }
  }

  /** What writing two characters at `at` does to the slices around it. */
  lemma PairWritten(before: seq<UInt8>, after: seq<UInt8>, i: nat, at: nat, pair: seq<UInt8>)
    requires |before| == |after| && i <= at && at + 2 <= |after|
    requires after[..at] == before[..at] && after[at..at + 2] == pair && after[at + 2..] == before[at + 2..]
    ensures after[..i] == before[..i]
    ensures after[i..at + 2] == before[i..at] + pair
  {
    assert after[..i] == after[..at][..i];
    assert before[..i] == before[..at][..i];
    assert after[i..at + 2] == after[..at][i..] + after[at..at + 2];
    assert before[i..at] == before[..at][i..];
  }

  lemma HexExtend(octets: Octets, from: nat, p: nat, uppercase: bool)
    requires from <= p < 16
    ensures Hex(octets[from..p + 1], uppercase) == Hex(octets[from..p], uppercase) + HexPair(octets[p], uppercase)
  {
    assert octets[from..p + 1] == octets[from..p] + [octets[p]];
    HexAppend(octets[from..p], [octets[p]], uppercase);
  }

  lemma AfterGroup(b: seq<UInt8>, o: Octets, uppercase: bool, separators: bool, g: nat, start: nat, i: nat)
    requires g < 5 && start <= i <= |b|
    requires b[..start] == Before(o, uppercase, separators, g)
    requires b[start..i] == Hex(o[GroupStarts[g]..GroupEnds[g]], uppercase)
    ensures b[..i] == Through(o, uppercase, separators, g)
  {
    assert b[..i] == b[..start] + b[start..i];
  }

  lemma AfterSeparator(b: seq<UInt8>, o: Octets, uppercase: bool, separators: bool, g: nat, start: nat, i: nat)
    requires 1 <= g < 5 && start <= i <= |b|
    requires b[..start] == Through(o, uppercase, separators, g - 1)
    requires i == start + |Separator(separators)|
    requires separators ==> b[start] == Hyphen
    ensures b[..i] == Before(o, uppercase, separators, g)
  {
    if separators {
      assert b[..i] == b[..start] + [b[start]];
    }
  }

  /** One step of `serialize(into:)` after the first group: the hyphen when
      separators are on, then the octets of group g. */
  method WriteSection(buffer: array<UInt8>, octets: Octets, uppercase: bool, separators: bool, g: nat, i: nat)
    returns (next: nat)
    requires 1 <= g < 5 && buffer.Length == Capacity(separators)
    requires i == |Through(octets, uppercase, separators, g - 1)|
    requires buffer[..i] == Through(octets, uppercase, separators, g - 1)
    modifies buffer
    ensures next == |Through(octets, uppercase, separators, g)|
    ensures buffer[..next] == Through(octets, uppercase, separators, g)
    ensures buffer[next..] == old(buffer[next..])
  {
    next := i;
    if separators {
      next := WriteDash(buffer, next);
    }
    AfterSeparator(buffer[..], octets, uppercase, separators, g, i, next);
    var start := next;
    next := WriteGroup(buffer, octets, GroupStarts[g], GroupEnds[g], next, uppercase);
    AfterGroup(buffer[..], octets, uppercase, separators, g, start, next);
  }

  /** The first step of `serialize(into:)`: the octets of group 0. */
  method WriteFirstGroup(buffer: array<UInt8>, octets: Octets, uppercase: bool, separators: bool)
    returns (next: nat)
    requires buffer.Length == Capacity(separators)
    modifies buffer
    ensures next == |Through(octets, uppercase, separators, 0)|
    ensures buffer[..next] == Through(octets, uppercase, separators, 0)
    ensures buffer[next..] == old(buffer[next..])
  {
    next := WriteGroup(buffer, octets, 0, 4, 0, uppercase);
    AfterGroup(buffer[..], octets, uppercase, separators, 0, 0, next);
  }

  /** `serialize(into:uppercase:separators:)`: fills the buffer with the text
      and returns how many bytes it wrote. */
  method Serialize(id: UniqueID, buffer: array<UInt8>, uppercase: bool, separators: bool)
    returns (count: nat)
    requires buffer.Length == Capacity(separators)
    modifies buffer
    ensures count == buffer.Length
    ensures buffer[..] == Text(id, uppercase, separators)
  {
    var octets := id.tuple;
    var i := WriteFirstGroup(buffer, octets, uppercase, separators);
    // 4, 4, 4, 12, each after a hyphen when separators are on:
    i := WriteSection(buffer, octets, uppercase, separators, 1, i);
    i := WriteSection(buffer, octets, uppercase, separators, 2, i);
    i := WriteSection(buffer, octets, uppercase, separators, 3, i);
    i := WriteSection(buffer, octets, uppercase, separators, 4, i);
    assert buffer[..] == buffer[..i];
    count := i;
  }

  /** `serialized(uppercase:separators:)`: the text as the UTF-8 bytes of the
      returned string. */
  method Serialized(id: UniqueID, uppercase: bool, separators: bool) returns (text: seq<UInt8>)
    ensures text == Text(id, uppercase, separators)
  {
    var buffer := new UInt8[Capacity(separators)];
    var count := Serialize(id, buffer, uppercase, separators);
    text := buffer[..count];
  }
}
