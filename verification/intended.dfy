/**
  The digit-exact reading of the command line's promise that the address
  "should start with" (or "should end with") the pattern, next to the matcher
  the engine runs: a byte pattern stands for its hex digits, and an address
  matches when its digits start (or end) with them. A pattern with more digits
  than the address never matches, and an odd-length suffix compares its last
  digit with the address's last digit.
 */
module Intended {
  import opened Wrappers
  import opened Hex
  import opened Hexspeak
  import opened Seqs
  import opened Patterns
  import opened Matcher

  /** Corrected `matches_pattern`: the comparison is made on nibbles. */
  function CorrectedMatches(e: RegexEngine, address: string, pat: Pattern, isPrefix: bool): bool {
    match pat
    case Regex(source) => e.isMatch(source, address)
    case Bytes(_, _) =>
      match HexDecode(AddressHex(address))
      case Err(_) => false
      case Ok(bytes) =>
        if isPrefix then IsPrefixOf(PatternDigits(pat), Nibbles(bytes))
        else IsSuffixOf(PatternDigits(pat), Nibbles(bytes))
  }

  /** The per-candidate test of the search, with the corrected matcher. */
  function CorrectedAccepts(e: RegexEngine, address: string, starts: Option<Pattern>, ends: Option<Pattern>): bool {
    && (starts.None? || CorrectedMatches(e, address, starts.value, true))
    && (ends.None? || CorrectedMatches(e, address, ends.value, false))
  }

  /** For a "0x" pattern and an address "0x" + hex digits, the corrected matcher
      answers exactly whether the address digits start (end) with the pattern digits,
      at every length and for odd suffixes too. */
  lemma CorrectedMatchesDigits(e: RegexEngine, p: string, a: string)
    requires StartsWithHexPrefix(p) && AllHex(TrimHexPrefix(p))
    requires AllHex(a) && |a| % 2 == 0
    ensures Parse(e, p).Ok? && Parse(e, p).value.Bytes?
    ensures CorrectedMatches(e, "0x" + a, Parse(e, p).value, true) <==>
      IsPrefixOf(Digits(TrimHexPrefix(p)), Digits(a))
    ensures CorrectedMatches(e, "0x" + a, Parse(e, p).value, false) <==>
      IsSuffixOf(Digits(TrimHexPrefix(p)), Digits(a))
  {
    AddressDigits(a);
  }

  /** The same for a hexspeak word: its look-alike digits are what is matched. */
  lemma CorrectedMatchesHexspeak(e: RegexEngine, p: string, a: string)
    requires !StartsWithHexPrefix(p) && !HasRegexSpecial(p) && Mappable(p)
    requires AllHex(a) && |a| % 2 == 0
    ensures Parse(e, p).Ok? && Parse(e, p).value.Bytes?
    ensures CorrectedMatches(e, "0x" + a, Parse(e, p).value, true) <==>
      IsPrefixOf(HexspeakDigits(p), Digits(a))
    ensures CorrectedMatches(e, "0x" + a, Parse(e, p).value, false) <==>
      IsSuffixOf(HexspeakDigits(p), Digits(a))
  {
    AddressDigits(a);
  }

  /** Where the engine is right the two matchers agree: every regex, every prefix
      no longer than the address, and every suffix without an uneven digit. */
  lemma CorrectedAgreesWithSource(e: RegexEngine, address: string, pat: Pattern, isPrefix: bool)
    requires WellFormed(pat)
    requires pat.Bytes? && HexDecode(AddressHex(address)).Ok? ==>
      if isPrefix then |PatternDigits(pat)| <= 2 * |HexDecode(AddressHex(address)).value|
      else pat.uneven.None?
    ensures CorrectedMatches(e, address, pat, isPrefix) == MatchesPattern(e, address, pat, isPrefix)
  {
    if pat.Bytes? && HexDecode(AddressHex(address)).Ok? {
      var bytes := HexDecode(AddressHex(address)).value;
      if isPrefix {
        PrefixMatchAsWritten(e, address, pat, bytes);
      } else {
        SuffixMatchAsWritten(e, address, pat, bytes);
      }
    }
  }

  /** For any byte pattern and an address "0x" + hex digits, the corrected matcher
      compares the pattern digits with the address digits. */
  lemma CorrectedBytesDigits(e: RegexEngine, pat: Pattern, a: string)
    requires pat.Bytes? && AllHex(a) && |a| % 2 == 0
    ensures CorrectedMatches(e, "0x" + a, pat, true) <==> IsPrefixOf(PatternDigits(pat), Digits(a))
    ensures CorrectedMatches(e, "0x" + a, pat, false) <==> IsSuffixOf(PatternDigits(pat), Digits(a))
  {
    AddressDigits(a);
  }

  /** The digits of the pattern parsed from "0xabc". */
  lemma OddPatternDigits(pat: Pattern)
    requires pat == Bytes([0xab], Some(0xc0))
    ensures PatternDigits(pat) == Digits("abc")
  {
    assert Nibbles([0xab]) == [10, 11];
    assert Digits("abc") == [10, 11, 12];
  }

  /** The digits of the pattern parsed from "0xa". */
  lemma OneDigitPatternDigits(pat: Pattern)
    requires pat == Bytes([], Some(0xa0))
    ensures PatternDigits(pat) == Digits("a")
  {
    assert Digits("a") == [10];
  }

  /** The corrected matcher accepts the odd suffix the engine rejects: "0x0abc"
      ends with the digits of "0xabc". */
  lemma CorrectedSuffixCounterexample(e: RegexEngine)
    ensures CorrectedMatches(e, "0x0abc", Bytes([0xab], Some(0xc0)), false)
  {
    var pat := Bytes([0xab], Some(0xc0));
    OddPatternDigits(pat);
    SuffixOddCounterexample(e);
    var a := "0abc";
    assert AllHex(a) && "0x" + a == "0x0abc";
    CorrectedBytesDigits(e, pat, a);
  }

  /** The corrected matcher accepts the one-digit suffix the engine rejects:
      "0x0a" ends with the digit of "0xa". */
  lemma CorrectedMaskCounterexample(e: RegexEngine)
    ensures CorrectedMatches(e, "0x0a", Bytes([], Some(0xa0)), false)
  {
    var pat := Bytes([], Some(0xa0));
    OneDigitPatternDigits(pat);
    SuffixMaskCounterexample(e);
    var a := "0a";
    assert AllHex(a) && "0x" + a == "0x0a";
    CorrectedBytesDigits(e, pat, a);
  }

  /** The corrected matcher rejects the prefix the engine accepts: "0xab" has
      fewer digits than "0xabc". */
  lemma CorrectedPrefixCounterexample(e: RegexEngine)
    ensures !CorrectedMatches(e, "0xab", Bytes([0xab], Some(0xc0)), true)
  {
    var pat := Bytes([0xab], Some(0xc0));
    OddPatternDigits(pat);
    PrefixOutOfRangeCounterexample(e);
    var a := "ab";
    assert AllHex(a) && "0x" + a == "0xab";
    CorrectedBytesDigits(e, pat, a);
  }
}
