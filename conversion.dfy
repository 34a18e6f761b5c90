// The text parser `init?(utf8:)` with its hex-digit table, `asciiToHex` and
// `parseByte(at:)` (Sources/UniqueID/Conversion.swift).
module Conversion {
  import opened Base
  import opened Layout

  const LeftBrace: UInt8 := 0x7B   // '{'
  const RightBrace: UInt8 := 0x7D  // '}'

  // ---------------------------------------------------------------------
  // Hex digits.

  /** '0'-'9', 'A'-'F' or 'a'-'f'. */
  predicate IsHexDigit(c: UInt8)
  {
    (0x30 <= c <= 0x39) || (0x41 <= c <= 0x46) || (0x61 <= c <= 0x66)
  }

  /** The value a hex digit stands for; 'A' and 'a' are 10. */
  function HexDigitValue(c: UInt8): UInt8
    requires IsHexDigit(c)
  {
    if c <= 0x39 then c - 0x30 else if c <= 0x46 then c - 0x41 + 10 else c - 0x61 + 10
  }

  /** The table's marker for "not a hex digit" (Int8 -1). */
  const DC: int := -1

  function Invalid(n: nat): seq<int>
  {
    seq(n, _ => DC)
  }

  /** `hex_table` as the source writes it, group by group. Its last group is
      meant to cover the 128 non-ASCII bytes but holds only 127 entries. */
  const HexTable: seq<int> :=
      Invalid(48)                       // 0x00-0x2F
    + [0, 1, 2, 3, 4, 5, 6, 7, 8, 9]    // '0'-'9'
    + Invalid(7)                        // ':'-'@'
    + [10, 11, 12, 13, 14, 15]          // 'A'-'F'
    + Invalid(20)                       // 'G'-'Z'
    + Invalid(6)                        // '['-'`'
    + [10, 11, 12, 13, 14, 15]          // 'a'-'f'
    + Invalid(20)                       // 'g'-'z'
    + Invalid(5)                        // '{'-DEL
    + Invalid(127)                      // non-ASCII bytes

  /** Every entry the table has is the digit's value or the marker. */
  lemma HexTableEntry(c: UInt8)
    requires c as int < |HexTable|
    ensures HexTable[c as int] == if IsHexDigit(c) then HexDigitValue(c) as int else DC
  {
    var i := c as int;
    if i < 48 {
    } else if i < 58 {
    } else if i < 65 {
    } else if i < 71 {
    } else if i < 91 {
    } else if i < 97 {
    } else if i < 103 {
    } else if i < 123 {
    } else if i < 128 {
    } else {
    }
  }

  /** `asciiToHex`'s lookup: a negative entry means "not a hex digit". */
  function TableLookup(table: seq<int>, ascii: UInt8): (r: Option<UInt8>)
    requires ascii as int < |table| && table[ascii as int] < 256
  {
    var numericValue := table[ascii as int];
    if numericValue < 0 then None else Some(numericValue as UInt8)
  }

  /** `asciiToHex` as written: the unchecked read `hex_table[Int(ascii)]` is
      only defined for the bytes the table covers, and there it classifies
      the byte correctly. */
  function AsciiToHexAsWritten(ascii: UInt8): (r: Option<UInt8>)
    requires ascii as int < |HexTable|
    ensures r.Some? <==> IsHexDigit(ascii)
    ensures r.Some? ==> r.value == HexDigitValue(ascii)
  {
    HexTableEntry(ascii);
    TableLookup(HexTable, ascii)
  }

  /** The table has 255 entries, so byte 0xFF is out of its range: the
      as-written lookup is not the total function its comment promises. */
  lemma HexTableMissesLastByte()
    ensures |HexTable| == 255
    ensures !((0xFF as UInt8) as int < |HexTable|)
  {
  }

  /** The table with its 256th entry restored. */
  const FullHexTable: seq<int> := HexTable + [DC]

  lemma FullHexTableEntry(c: UInt8)
    ensures |FullHexTable| == 256
    ensures FullHexTable[c as int] == if IsHexDigit(c) then HexDigitValue(c) as int else DC
  {
    if c as int < |HexTable| { HexTableEntry(c); }
  }

  /** `asciiToHex` as intended: the digit's value for a hex digit and nothing
      for any other byte, all 256 of them. */
  function AsciiToHex(ascii: UInt8): (r: Option<UInt8>)
    ensures r.Some? ==> r.value < 16
  {
    if IsHexDigit(ascii) then Some(HexDigitValue(ascii)) else None
  }

  /** The intended function is the lookup in the 256-entry table. */
  lemma AsciiToHexIsFullTableLookup(ascii: UInt8)
    ensures |FullHexTable| == 256
    ensures FullHexTable[ascii as int] < 256
    ensures AsciiToHex(ascii) == TableLookup(FullHexTable, ascii)
  {
    FullHexTableEntry(ascii);
  }

  /** It agrees with the source's lookup on every byte the table covers. */
  lemma AsciiToHexExtendsAsWritten(ascii: UInt8)
    requires ascii as int < |HexTable|
    ensures AsciiToHex(ascii) == AsciiToHexAsWritten(ascii)
  {
  }

  // ---------------------------------------------------------------------
  // The parser's specification.

  /** Brace trimming: a leading '{' must be matched by a trailing '}', and
      both are dropped; input without a leading '{' is kept as it is. */
  function TrimBraces(utf8: seq<UInt8>): Option<seq<UInt8>>
  {
    if |utf8| > 0 && utf8[0] == LeftBrace then
      if utf8[|utf8| - 1] == RightBrace then Some(utf8[1..|utf8| - 1]) else None
    else Some(utf8)
  }

  /** Drops a leading run of hyphens. */
  function SkipHyphens(s: seq<UInt8>): (t: seq<UInt8>)
    ensures |t| <= |s|
    ensures t == [] || t[0] != Hyphen
  {
    if s != [] && s[0] == Hyphen then SkipHyphens(s[1..]) else s
  }

  /** `parseByte` at the front of `s`: two hex digits make one octet, high
      nibble first. */
  function ParseByte(s: seq<UInt8>): Option<UInt8>
  {
    if |s| < 1 then None
    else match AsciiToHex(s[0])
      case None => None
      case Some(firstNibble) =>
        if |s| < 2 then None
        else match AsciiToHex(s[1])
          case None => None
          case Some(secondNibble) => Some((firstNibble << 4) | secondNibble)
  }

  /** `parseByte` succeeds exactly on two hex digits, and their values make
      the octet, high nibble first. */
  lemma ParseByteReadsTwoDigits(s: seq<UInt8>)
    ensures ParseByte(s).Some? <==> |s| >= 2 && IsHexDigit(s[0]) && IsHexDigit(s[1])
    ensures ParseByte(s).Some? ==>
      ParseByte(s).value == HexDigitValue(s[0]) * 16 + HexDigitValue(s[1])
  {
  }

  /** Reads `n` octets from the front of `s`, each preceded by any run of
      hyphens; yields the octets and the unread rest of `s`. */
  function ParseOctets(s: seq<UInt8>, n: nat): (r: Option<(seq<UInt8>, seq<UInt8>)>)
    ensures r.Some? ==> |r.value.0| == n
    decreases n
  {
    if n == 0 then Some(([], s))
    else
      var t := SkipHyphens(s);
      match ParseByte(t)
      case None => None
      case Some(octet) =>
        match ParseOctets(t[2..], n - 1)
        case None => None
        case Some((rest, tail)) => Some(([octet] + rest, tail))
  }

  /** Puts `prefix` in front of the octets of a successful partial parse. */
  function Prepend(prefix: seq<UInt8>, r: Option<(seq<UInt8>, seq<UInt8>)>): Option<(seq<UInt8>, seq<UInt8>)>
  {
    match r
    case None => None
    case Some((octets, tail)) => Some((prefix + octets, tail))
  }

  /** One step of `ParseOctets`: skip hyphens, parse an octet, go on. */
  lemma ParseOctetsStep(s: seq<UInt8>, n: nat)
    requires n > 0
    ensures ParseByte(SkipHyphens(s)).None? ==> ParseOctets(s, n) == None
    ensures ParseByte(SkipHyphens(s)).Some? ==>
      ParseOctets(s, n)
        == Prepend([ParseByte(SkipHyphens(s)).value], ParseOctets(SkipHyphens(s)[2..], n - 1))
  {
  }

  lemma PrependEmpty(r: Option<(seq<UInt8>, seq<UInt8>)>)
    ensures Prepend([], r) == r
  {
    if r.Some? {
      assert [] + r.value.0 == r.value.0;
    }
  }

  lemma PrependTwice(a: seq<UInt8>, b: seq<UInt8>, r: Option<(seq<UInt8>, seq<UInt8>)>)
    ensures Prepend(a, Prepend(b, r)) == Prepend(a + b, r)
  {
    if r.Some? {
      assert a + (b + r.value.0) == (a + b) + r.value.0;
    }
  }

  /** The digits between the braces: exactly 16 octets and nothing after. */
  function ParseDigits(digits: seq<UInt8>): Option<UniqueID>
  {
    match ParseOctets(digits, 16)
    case None => None
    case Some((octets, tail)) => if tail == [] then Some(UniqueID(octets)) else None
  }

  /** What `init?(utf8:)` yields. */
  function Parse(utf8: seq<UInt8>): Option<UniqueID>
  {
    match TrimBraces(utf8)
    case None => None
    case Some(digits) => ParseDigits(digits)
  }

  // ---------------------------------------------------------------------
  // Letter case.

  /** 'A'-'F' to 'a'-'f'; every other byte unchanged. */
  function LowerDigit(c: UInt8): UInt8
  {
    if 0x41 <= c <= 0x46 then c + 0x20 else c
  }

  /** `s` with its upper-case hex digits lowered. */
  function FoldCase(s: seq<UInt8>): (t: seq<UInt8>)
    ensures |t| == |s|
  {
    seq(|s|, i requires 0 <= i < |s| => LowerDigit(s[i]))
  }

  /** Lowering a byte changes neither the digit it reads as nor whether it
      is a hyphen or a brace. */
  lemma LowerDigitKeepsMeaning(c: UInt8)
    ensures AsciiToHex(LowerDigit(c)) == AsciiToHex(c)
    ensures LowerDigit(c) == Hyphen <==> c == Hyphen
    ensures LowerDigit(c) == LeftBrace <==> c == LeftBrace
    ensures LowerDigit(c) == RightBrace <==> c == RightBrace
  {
  }

  /** Folding commutes with taking a slice. */
  lemma FoldCaseSlice(s: seq<UInt8>, i: nat, j: nat)
    requires i <= j <= |s|
    ensures FoldCase(s)[i..j] == FoldCase(s[i..j])
  {
  }

  /** Skipping hyphens commutes with folding. */
  lemma {:induction false} SkipHyphensFold(s: seq<UInt8>)
    ensures SkipHyphens(FoldCase(s)) == FoldCase(SkipHyphens(s))
    decreases |s|
  {
    if s != [] {
      LowerDigitKeepsMeaning(s[0]);
      assert FoldCase(s)[0] == LowerDigit(s[0]);
      if s[0] == Hyphen {
        FoldCaseSlice(s, 1, |s|);
        assert FoldCase(s)[1..] == FoldCase(s[1..]);
        SkipHyphensFold(s[1..]);
      }
    }
  }

  /** An octet reads the same in either case. */
  lemma ParseByteFold(s: seq<UInt8>)
    ensures ParseByte(FoldCase(s)) == ParseByte(s)
  {
    if |s| >= 1 {
      LowerDigitKeepsMeaning(s[0]);
    }
    if |s| >= 2 {
      LowerDigitKeepsMeaning(s[1]);
    }
  }

  /** A partial parse with its unread rest folded. */
  function FoldRest(r: Option<(seq<UInt8>, seq<UInt8>)>): Option<(seq<UInt8>, seq<UInt8>)>
  {
    match r
    case None => None
    case Some((octets, tail)) => Some((octets, FoldCase(tail)))
  }

  /** Reading octets from folded text reads the same octets and leaves the
      folded rest. */
  lemma {:induction false} ParseOctetsFold(s: seq<UInt8>, n: nat)
    ensures ParseOctets(FoldCase(s), n) == FoldRest(ParseOctets(s, n))
    decreases n
  {
    if n > 0 {
      var t := SkipHyphens(s);
      SkipHyphensFold(s);
      ParseByteFold(t);
      if ParseByte(t).Some? {
        FoldCaseSlice(t, 2, |t|);
        ParseOctetsFold(t[2..], n - 1);
        assert SkipHyphens(FoldCase(s))[2..] == FoldCase(t[2..]);
      }
    }
  }

  /** Brace trimming sees the same braces in folded text. */
  lemma TrimBracesFold(s: seq<UInt8>)
    ensures TrimBraces(FoldCase(s)).Some? <==> TrimBraces(s).Some?
    ensures TrimBraces(s).Some? ==> TrimBraces(FoldCase(s)).value == FoldCase(TrimBraces(s).value)
  {
    if |s| > 0 {
      LowerDigitKeepsMeaning(s[0]);
      LowerDigitKeepsMeaning(s[|s| - 1]);
      if |s| >= 2 {
        FoldCaseSlice(s, 1, |s| - 1);
      }
    }
  }

  /** The parser ignores the case of hex digits: any mix of upper and lower
      case parses as the all-lower-case text does. */
  lemma ParseIgnoresCase(s: seq<UInt8>)
    ensures Parse(FoldCase(s)) == Parse(s)
  {
    TrimBracesFold(s);
    if TrimBraces(s).Some? {
      ParseOctetsFold(TrimBraces(s).value, 16);
    }
  }

  // ---------------------------------------------------------------------
  // The parser as the source runs it.

  /** `parseByte(at: &i)`: reads a hex digit at `i` and one after it, moving
      `i` past each digit it accepts. */
  method ParseByteAt(s: seq<UInt8>, i: nat) returns (r: Option<UInt8>, next: nat)
    requires i <= |s|
    ensures r == ParseByte(s[i..])
    ensures r.Some? ==> next == i + 2
    ensures i <= next <= |s|
  {
    next := i;
    if next >= |s| {
      return None, next;
    }
    var firstNibble := AsciiToHex(s[next]);
    if firstNibble.None? {
      return None, next;
    }
    next := next + 1;
    if next >= |s| {
      return None, next;
    }
    var secondNibble := AsciiToHex(s[next]);
    if secondNibble.None? {
      return None, next;
    }
    next := next + 1;
    r := Some((firstNibble.value << 4) | secondNibble.value);
  }

  /** The parser loop's step, in terms of positions in the input. */
  lemma ParseOctetsAdvance(digits: seq<UInt8>, start: nat, i: nat, n: nat, octet: Option<UInt8>)
    requires start <= i <= |digits| && n > 0
    requires SkipHyphens(digits[start..]) == digits[i..]
    requires octet == ParseByte(digits[i..])
    ensures octet.None? ==> ParseOctets(digits[start..], n) == None
    ensures octet.Some? ==> i + 2 <= |digits|
    ensures octet.Some? ==>
      ParseOctets(digits[start..], n) == Prepend([octet.value], ParseOctets(digits[i + 2..], n - 1))
  {
    ParseOctetsStep(digits[start..], n);
    if octet.Some? {
      assert digits[i..][2..] == digits[i + 2..];
    }
  }

  lemma NothingParsedYet(digits: seq<UInt8>)
    ensures ParseOctets(digits, 16) == Prepend([], ParseOctets(digits[0..], 16))
  {
    assert digits[0..] == digits;
    PrependEmpty(ParseOctets(digits, 16));
  }

  /** The `while utf8[i] == "-"` loop: moves `i` past a run of hyphens. */
  method SkipHyphensAt(digits: seq<UInt8>, i: nat) returns (next: nat)
    requires i <= |digits|
    ensures i <= next <= |digits|
    ensures digits[next..] == SkipHyphens(digits[i..])
  {
    next := i;
    while next < |digits| && digits[next] == Hyphen
      invariant i <= next <= |digits|
      invariant SkipHyphens(digits[i..]) == SkipHyphens(digits[next..])
    {
      assert digits[next..][1..] == digits[next + 1..];
      next := next + 1;
    }
  }

  /** The body of the closure `init?(utf8:)` hands to `withUnsafeMutableBytes`:
      for each of the 16 octets, skip hyphens and parse two hex digits into
      the buffer; succeed only if the input is used up. */
  method ParseInto(digits: seq<UInt8>, uuidBytes: array<UInt8>) returns (success: bool)
    requires uuidBytes.Length == 16
    modifies uuidBytes
    ensures success <==> ParseDigits(digits).Some?
    ensures success ==> uuidBytes[..] == ParseDigits(digits).value.tuple
  {
    var i: nat := 0;
    ghost var parsed: seq<UInt8> := [];
    ghost var remaining: nat := 16;
    NothingParsedYet(digits);
    for storagePosition := 0 to 16
      invariant i <= |digits| && remaining == 16 - storagePosition
      invariant |parsed| == storagePosition && forall j | 0 <= j < storagePosition :: uuidBytes[j] == parsed[j]
      invariant ParseOctets(digits, 16) == Prepend(parsed, ParseOctets(digits[i..], remaining))
    {
      var parsedByte, next := ReadOctet(digits, i, remaining);
      if parsedByte.None? {
        ParseStopped(digits, parsed);
        return false;
      }
      ParsedOneMore(digits, parsed, parsedByte.value, i, next, remaining);
      uuidBytes[storagePosition] := parsedByte.value;
      parsed := parsed + [parsedByte.value];
      remaining := remaining - 1;
      i := next;
    }
    assert uuidBytes[..] == parsed;
    ParseFinished(digits, parsed, i);
    success := i == |digits|;
  }

  lemma ParsedOneMore(digits: seq<UInt8>, parsed: seq<UInt8>, octet: UInt8, i: nat, next: nat, n: nat)
    requires i <= next <= |digits| && n > 0
    requires ParseOctets(digits, 16) == Prepend(parsed, ParseOctets(digits[i..], n))
    requires ParseOctets(digits[i..], n) == Prepend([octet], ParseOctets(digits[next..], n - 1))
    ensures ParseOctets(digits, 16) == Prepend(parsed + [octet], ParseOctets(digits[next..], n - 1))
  {
    PrependTwice(parsed, [octet], ParseOctets(digits[next..], n - 1));
  }

  lemma ParseStopped(digits: seq<UInt8>, parsed: seq<UInt8>)
    requires ParseOctets(digits, 16) == Prepend(parsed, None)
    ensures ParseDigits(digits) == None
  {
  }

  /** Once 16 octets are read, the digits make an identifier exactly when
      nothing is left over. */
  lemma ParseFinished(digits: seq<UInt8>, parsed: seq<UInt8>, i: nat)
    requires i <= |digits| && |parsed| == 16
    requires ParseOctets(digits, 16) == Prepend(parsed, ParseOctets(digits[i..], 0))
    ensures ParseDigits(digits).Some? <==> i == |digits|
    ensures i == |digits| ==> ParseDigits(digits).value.tuple == parsed
  {
    assert parsed + [] == parsed;
  }

  /** One pass of the parser loop: skip hyphens, then `parseByte(at: &i)`. */
  method ReadOctet(digits: seq<UInt8>, i: nat, ghost n: nat) returns (octet: Option<UInt8>, next: nat)
    requires i <= |digits| && n > 0
    ensures octet.None? ==> ParseOctets(digits[i..], n) == None
    ensures octet.Some? ==> i < next <= |digits|
    ensures octet.Some? ==>
      ParseOctets(digits[i..], n) == Prepend([octet.value], ParseOctets(digits[next..], n - 1))
  {
    var at := SkipHyphensAt(digits, i);
    octet, next := ParseByteAt(digits, at);
    ParseOctetsAdvance(digits, i, at, n, octet);
  }

  /** `init?(utf8:)`: trims braces, then parses the digits into a zeroed
      buffer. */
  method InitUTF8(utf8: seq<UInt8>) returns (r: Option<UniqueID>)
    ensures r == Parse(utf8)
  {
    var digits := utf8;
    if |digits| > 0 && digits[0] == LeftBrace {
      if digits[|digits| - 1] != RightBrace {
        return None;
      }
      digits := digits[1..|digits| - 1];
    }
    assert TrimBraces(utf8) == Some(digits);
    var tuple := new UInt8[16](_ => 0);
    var success := ParseInto(digits, tuple);
    if !success {
      return None;
    }
    r := Some(UniqueID(tuple[..]));
  }
}
