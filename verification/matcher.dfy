/**
  `matches_pattern` and the acceptance test of one candidate address
  against the supplied starts-with and ends-with patterns, exactly as the
  engine computes them, with their meaning stated on hex digits.
 */
module Matcher {
  import opened Wrappers
  import opened Hex
  import opened Seqs
  import opened Patterns

  /** `strip_prefix("0x")`: at most one prefix is removed from an address. */
  function AddressHex(address: string): string {
    if StartsWithHexPrefix(address) then address[2..] else address
  }

  /** `b & 0xf0`. */
  function HighNibbleMask(b: byte): (r: byte)
    ensures r % 16 == 0 && r / 16 == b / 16
  {
    b / 16 * 16
  }

  /** `b & 0x0f`. */
  function LowNibbleMask(b: byte): (r: byte)
    ensures r < 16 && (b - r) % 16 == 0
  {
    b % 16
  }

  /** `matches_pattern`. A regex is matched against the whole address text. A byte pattern
      needs an address that decodes as hex; then the needle must start (or end) the
      bytes, and an uneven byte is compared with the high nibble of the byte after
      the needle (prefix) or the low nibble of the byte before it (suffix). When
      that byte does not exist the answer is `true`. For a suffix that happens
      only when the needle is the whole address: `len - needle.len() - 1`
      underflows there, and the wrapped index is out of range. */
  function MatchesPattern(e: RegexEngine, address: string, pat: Pattern, isPrefix: bool): bool {
    match pat
    case Regex(source) => e.isMatch(source, address)
    case Bytes(needle, uneven) =>
      match HexDecode(AddressHex(address))
      case Err(_) => false
      case Ok(bytes) => MatchesBytes(needle, uneven, bytes, isPrefix)
  }

  /** The byte comparisons of `matches_pattern` once the address has been decoded. */
  function MatchesBytes(needle: seq<byte>, uneven: Option<byte>, bytes: seq<byte>, isPrefix: bool): bool {
    var found := if isPrefix then IsPrefixOf(needle, bytes) else IsSuffixOf(needle, bytes);
    if !found then false
    else
      match uneven
      case None => true
      case Some(u) =>
        if isPrefix then
          if |needle| < |bytes| then HighNibbleMask(bytes[|needle|]) == u else true
        else
          if |needle| < |bytes| then LowNibbleMask(bytes[|bytes| - |needle| - 1]) == u else true
  }

  /** A regex pattern ignores the anchor; an address that is not even-length hex
      never matches a byte pattern. */
  lemma MatchesPatternBasics(e: RegexEngine, address: string, pat: Pattern, isPrefix: bool)
    ensures pat.Regex? ==> (MatchesPattern(e, address, pat, isPrefix) <==> e.isMatch(pat.source, address))
    ensures pat.Bytes? && !(|AddressHex(address)| % 2 == 0 && AllHex(AddressHex(address))) ==>
      !MatchesPattern(e, address, pat, isPrefix)
  {
  }

  /** Byte-level and nibble-level `starts_with` agree. */
  lemma PrefixNibbles(n: seq<byte>, b: seq<byte>)
    ensures IsPrefixOf(n, b) <==> IsPrefixOf(Nibbles(n), Nibbles(b))
  {
    if |n| <= |b| {
      assert b == b[..|n|] + b[|n|..];
      NibblesAppend(b[..|n|], b[|n|..]);
      assert Nibbles(b)[..2 * |n|] == Nibbles(b[..|n|]);
      if IsPrefixOf(Nibbles(n), Nibbles(b)) {
        NibblesInjective(b[..|n|], n);
      }
    }
  }

  /** Byte-level and nibble-level `ends_with` agree. */
  lemma SuffixNibbles(n: seq<byte>, b: seq<byte>)
    ensures IsSuffixOf(n, b) <==> IsSuffixOf(Nibbles(n), Nibbles(b))
  {
    if |n| <= |b| {
      var k := |b| - |n|;
      assert b == b[..k] + b[k..];
      NibblesAppend(b[..k], b[k..]);
      assert Nibbles(b)[2 * k..] == Nibbles(b[k..]);
      if IsSuffixOf(Nibbles(n), Nibbles(b)) {
        NibblesInjective(b[k..], n);
      }
    }
  }

  /** As written, a prefix test means "the address digits start with the pattern
      digits" whenever the pattern is no longer than the address. A longer pattern
      matches exactly when it has an uneven digit and its needle is the whole
      address, because the out-of-range nibble index returns `true`. */
  lemma PrefixMatchAsWritten(e: RegexEngine, address: string, pat: Pattern, bytes: seq<byte>)
    requires pat.Bytes? && WellFormed(pat)
    requires HexDecode(AddressHex(address)) == Ok(bytes)
    ensures |PatternDigits(pat)| <= |Nibbles(bytes)| ==>
      (MatchesPattern(e, address, pat, true) <==> IsPrefixOf(PatternDigits(pat), Nibbles(bytes)))
    ensures |PatternDigits(pat)| > |Nibbles(bytes)| ==>
      (MatchesPattern(e, address, pat, true) <==> pat.uneven.Some? && pat.needle == bytes)
  {
    var needle := pat.needle;
    assert MatchesPattern(e, address, pat, true) == MatchesBytes(needle, pat.uneven, bytes, true);
    PrefixNibbles(needle, bytes);
    if pat.uneven.Some? {
      var u := pat.uneven.value;
      PrefixSnoc(Nibbles(needle), u / 16, Nibbles(bytes));
      if |needle| < |bytes| {
        NibblesIndex(bytes);
        assert Nibbles(bytes)[2 * |needle|] == bytes[|needle|] / 16;
      }
    } else {
      assert PatternDigits(pat) == Nibbles(needle);
    }
  }

  /** As written, a suffix test without an uneven digit means "the address digits
      end with the pattern digits". With an uneven digit `d` (stored as `d * 16`)
      it compares a low nibble, which is below 16, with `d * 16`: it can only
      succeed for `d = 0`, and then asks for a 0 digit before the needle rather than
      for the pattern's last digit after it. A needle as long as the address
      matches regardless, through the wrapped index. */
  lemma SuffixMatchAsWritten(e: RegexEngine, address: string, pat: Pattern, bytes: seq<byte>)
    requires pat.Bytes? && WellFormed(pat)
    requires HexDecode(AddressHex(address)) == Ok(bytes)
    ensures pat.uneven.None? ==>
      (MatchesPattern(e, address, pat, false) <==> IsSuffixOf(PatternDigits(pat), Nibbles(bytes)))
    ensures pat.uneven.Some? && |pat.needle| < |bytes| ==>
      (MatchesPattern(e, address, pat, false) <==>
        && IsSuffixOf(Nibbles(pat.needle), Nibbles(bytes))
        && pat.uneven.value == 0
        && Nibbles(bytes)[|Nibbles(bytes)| - |Nibbles(pat.needle)| - 1] == 0)
    ensures pat.uneven.Some? && |pat.needle| >= |bytes| ==>
      (MatchesPattern(e, address, pat, false) <==> pat.needle == bytes)
  {
    var needle := pat.needle;
    assert MatchesPattern(e, address, pat, false) == MatchesBytes(needle, pat.uneven, bytes, false);
    if pat.uneven.None? {
      SuffixNibbles(needle, bytes);
      assert PatternDigits(pat) == Nibbles(needle);
    } else if |needle| < |bytes| {
      SuffixUnevenInRange(needle, pat.uneven.value, bytes);
    } else {
      SuffixUnevenWhole(needle, pat.uneven.value, bytes);
    }
  }

  lemma SuffixUnevenInRange(needle: seq<byte>, u: byte, bytes: seq<byte>)
    requires u % 16 == 0 && |needle| < |bytes|
    ensures MatchesBytes(needle, Some(u), bytes, false) <==>
      && IsSuffixOf(Nibbles(needle), Nibbles(bytes))
      && u == 0
      && Nibbles(bytes)[|Nibbles(bytes)| - |Nibbles(needle)| - 1] == 0
  {
    SuffixNibbles(needle, bytes);
    var k := |bytes| - |needle| - 1;
    NibblesIndex(bytes);
    assert Nibbles(bytes)[2 * k + 1] == bytes[k] % 16;
    assert LowNibbleMask(bytes[k]) == u <==> u == 0 && bytes[k] % 16 == 0;
  }

  lemma SuffixUnevenWhole(needle: seq<byte>, u: byte, bytes: seq<byte>)
    requires |needle| >= |bytes|
    ensures MatchesBytes(needle, Some(u), bytes, false) <==> needle == bytes
  {
    if IsSuffixOf(needle, bytes) {
      assert bytes[|bytes| - |needle|..] == bytes;
    }
  }

  /** The address text after its "0x", for an address that is "0x" followed by hex digits. */
  lemma AddressDigits(a: string)
    requires AllHex(a) && |a| % 2 == 0
    ensures AddressHex("0x" + a) == a
    ensures HexDecode(a).Ok? && Nibbles(HexDecode(a).value) == Digits(a)
  {
    assert ("0x" + a)[2..] == a;
  }

  /** End to end, as written: a "0x" prefix pattern no longer than the address
      matches exactly when the address digits start with the pattern digits. */
  lemma HexPrefixMatchesDigits(e: RegexEngine, p: string, a: string)
    requires StartsWithHexPrefix(p) && AllHex(TrimHexPrefix(p))
    requires AllHex(a) && |a| % 2 == 0 && |TrimHexPrefix(p)| <= |a|
    ensures Parse(e, p).Ok? && Parse(e, p).value.Bytes?
    ensures MatchesPattern(e, "0x" + a, Parse(e, p).value, true) <==>
      IsPrefixOf(Digits(TrimHexPrefix(p)), Digits(a))
  {
    AddressDigits(a);
    PrefixMatchAsWritten(e, "0x" + a, Parse(e, p).value, HexDecode(a).value);
  }

  /** End to end, as written: an even-length "0x" suffix pattern matches exactly
      when the address digits end with the pattern digits. */
  lemma HexEvenSuffixMatchesDigits(e: RegexEngine, p: string, a: string)
    requires StartsWithHexPrefix(p) && AllHex(TrimHexPrefix(p)) && |p| % 2 == 0
    requires AllHex(a) && |a| % 2 == 0
    ensures Parse(e, p).Ok? && Parse(e, p).value.Bytes?
    ensures MatchesPattern(e, "0x" + a, Parse(e, p).value, false) <==>
      IsSuffixOf(Digits(TrimHexPrefix(p)), Digits(a))
  {
    AddressDigits(a);
    SuffixMatchAsWritten(e, "0x" + a, Parse(e, p).value, HexDecode(a).value);
  }

  /** The misaligned-needle discrepancy on a small address: "0x0abc" ends with the
      digits "abc", yet the pattern parsed from "0xabc" (see `ParseOddHexExample`)
      keeps the byte-aligned needle [0xab], while in the address those digits straddle
      the bytes 0x0a and 0xbc, so the byte-level suffix test already fails. */
  lemma SuffixOddCounterexample(e: RegexEngine)
    ensures IsSuffixOf(Digits("abc"), Digits("0abc"))
    ensures !MatchesPattern(e, "0x0abc", Bytes([0xab], Some(0xc0)), false)
  {
    assert Digits("abc") == [10, 11, 12];
    assert Digits("0abc") == [0, 10, 11, 12];
    var a := "0x0abc";
    assert StartsWithHexPrefix(a) && AddressHex(a) == "0abc";
    var bytes := HexDecode("0abc").value;
    assert Nibbles(bytes) == [0, 10, 11, 12];
    assert Nibbles([0x0a, 0xbc]) == [0, 10, 11, 12];
    NibblesInjective(bytes, [0x0a, 0xbc]);
    assert bytes[|bytes| - 1..] == [0xbc];
  }

  /** The nibble-mask discrepancy on a small address: "0x0a" ends with the digit
      "a", the needle parsed from "0xa" (see `ParseOneDigitExample`) is empty so the
      byte test passes, and then the uneven byte 0xa0 is compared with the low
      nibble 0x0a of the last byte. */
  lemma SuffixMaskCounterexample(e: RegexEngine)
    ensures IsSuffixOf(Digits("a"), Digits("0a"))
    ensures !MatchesPattern(e, "0x0a", Bytes([], Some(0xa0)), false)
  {
    assert Digits("a") == [10];
    assert Digits("0a") == [0, 10];
    var a := "0a";
    AddressDigits(a);
    assert "0x" + a == "0x0a";
    var bytes := HexDecode(a).value;
    assert |Nibbles(bytes)| == 2;
    SuffixUnevenInRange([], 0xa0, bytes);
    assert MatchesPattern(e, "0x0a", Bytes([], Some(0xa0)), false) == MatchesBytes([], Some(0xa0), bytes, false);
  }

  /** The out-of-range discrepancy on a small address: the pattern from "0xabc" has
      three digits, the address "0xab" only two, and still it matches as a prefix. */
  lemma PrefixOutOfRangeCounterexample(e: RegexEngine)
    ensures !IsPrefixOf(Digits("abc"), Digits("ab"))
    ensures MatchesPattern(e, "0xab", Bytes([0xab], Some(0xc0)), true)
  {
    var a := "0xab";
    assert StartsWithHexPrefix(a) && AddressHex(a) == "ab";
    var bytes := HexDecode("ab").value;
    assert Nibbles(bytes) == Digits("ab") == [10, 11];
    assert Nibbles([0xab]) == [10, 11];
    NibblesInjective(bytes, [0xab]);
  }

  /** The per-candidate test of the search: every supplied pattern must match, the
      starts-with one as a prefix and the ends-with one as a suffix. */
  function Accepts(e: RegexEngine, address: string, starts: Option<Pattern>, ends: Option<Pattern>): bool {
    && (starts.None? || MatchesPattern(e, address, starts.value, true))
    && (ends.None? || MatchesPattern(e, address, ends.value, false))
  }

  /** A pattern together with the end of the address it is anchored to. */
  datatype Anchored = Anchored(pat: Pattern, isPrefix: bool)

  /** The patterns that were supplied, each with its anchor. */
  function Supplied(starts: Option<Pattern>, ends: Option<Pattern>): (r: seq<Anchored>)
    ensures |r| == (if starts.Some? then 1 else 0) + (if ends.Some? then 1 else 0)
  {
    (if starts.Some? then [Anchored(starts.value, true)] else [])
    + (if ends.Some? then [Anchored(ends.value, false)] else [])
  }

  /** A candidate is accepted exactly when it matches every supplied pattern; an
      absent pattern constrains nothing, and with both present one match is not enough. */
  lemma AcceptsEverySupplied(e: RegexEngine, address: string, starts: Option<Pattern>, ends: Option<Pattern>)
    ensures Accepts(e, address, starts, ends) <==>
      forall k :: 0 <= k < |Supplied(starts, ends)| ==>
        MatchesPattern(e, address, Supplied(starts, ends)[k].pat, Supplied(starts, ends)[k].isPrefix)
    ensures starts.None? && ends.None? ==> Accepts(e, address, starts, ends)
  {
    var s := Supplied(starts, ends);
    if starts.Some? && ends.Some? {
      assert s[0] == Anchored(starts.value, true) && s[1] == Anchored(ends.value, false);
    } else if starts.Some? {
      assert s[0] == Anchored(starts.value, true);
    } else if ends.Some? {
      assert s[0] == Anchored(ends.value, false);
    }
  }
}
