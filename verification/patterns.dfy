/**
  `parse_pattern`: a pattern string becomes either a byte needle with an
  optional trailing half-byte, or a regular expression. Three rules are
  tried in order: a "0x" hex literal, a regular expression (only when the
  string contains a regex special character and compiles), and hexspeak.
 */
module Patterns {
  import opened Wrappers
  import opened Hex
  import opened Hexspeak

  /** The regex library, which is not modelled: whether a source string compiles,
      and whether a compiled source matches anywhere in a text. */
  datatype RegexEngine = RegexEngine(compiles: string -> bool, isMatch: (string, string) -> bool)

  /** A parsed pattern. For `Bytes`, `uneven` holds the last digit of an odd-length
      pattern in the high half of a byte (digit `d` is stored as `d * 16`). */
  datatype Pattern =
    | Bytes(needle: seq<byte>, uneven: Option<byte>)
    | Regex(source: string)

  /** The characters whose presence makes the parser try a regular expression. */
  const RegexSpecials: string := "^$[]()|{}+*?"

  predicate HasRegexSpecial(p: string) {
    exists i :: 0 <= i < |p| && p[i] in RegexSpecials
  }

  /** The hex digits a byte pattern stands for: the needle's nibbles, then the
      uneven digit if there is one. */
  function PatternDigits(p: Pattern): seq<nibble>
    requires p.Bytes?
  {
    Nibbles(p.needle) + (if p.uneven.Some? then [p.uneven.value / 16] else [])
  }

  /** The shape every parsed byte pattern has: its uneven byte has a zero low nibble. */
  predicate WellFormed(p: Pattern) {
    p.Bytes? && p.uneven.Some? ==> p.uneven.value % 16 == 0
  }

  /** `Vec::pop` on the decoded needle when the pattern text had odd length. */
  function SplitUneven(bytes: seq<byte>, odd: bool): Pattern {
    if odd && |bytes| > 0 then Bytes(bytes[..|bytes| - 1], Some(bytes[|bytes| - 1]))
    else Bytes(bytes, None)
  }

  /** Splitting a decoded odd-length text pops exactly its padded last digit. */
  lemma SplitUnevenDigits(bytes: seq<byte>, ds: seq<nibble>)
    requires Nibbles(bytes) == ds + Pad(|ds|)
    ensures WellFormed(SplitUneven(bytes, |ds| % 2 == 1))
    ensures PatternDigits(SplitUneven(bytes, |ds| % 2 == 1)) == ds
    ensures SplitUneven(bytes, |ds| % 2 == 1).uneven.Some? <==> |ds| % 2 == 1
  {
    var p := SplitUneven(bytes, |ds| % 2 == 1);
    if |ds| % 2 == 1 {
      var m := |bytes| - 1;
      var x := bytes[m];
      assert bytes == bytes[..m] + [x];
      NibblesAppend(bytes[..m], [x]);
      var front := Nibbles(bytes[..m]);
      assert Nibbles([x]) == [x / 16, x % 16];
      assert front + [x / 16, x % 16] == ds + [0];
      assert (front + [x / 16, x % 16])[..|ds|] == front + [x / 16];
      assert (ds + [0])[..|ds|] == ds;
      assert (front + [x / 16, x % 16])[|ds|] == x % 16;
    } else {
      assert ds + Pad(|ds|) == ds;
    }
  }

  /** `parse_pattern`. */
  function Parse(e: RegexEngine, p: string): (r: Result<Pattern, DecodeError>)
    // Rule 1: a "0x" literal never becomes a regex; it stands for exactly the digits after the prefix(es).
    ensures StartsWithHexPrefix(p) ==> (r.Ok? <==> AllHex(TrimHexPrefix(p)))
    ensures StartsWithHexPrefix(p) && r.Ok? ==> r.value.Bytes? && PatternDigits(r.value) == Digits(TrimHexPrefix(p))
    // Rule 2: a regex exactly when there is no "0x", a special character, and the source compiles.
    ensures (r.Ok? && r.value.Regex?) <==> !StartsWithHexPrefix(p) && HasRegexSpecial(p) && e.compiles(p)
    ensures r.Ok? && r.value.Regex? ==> r.value == Regex(p)
    // Rule 3: otherwise hexspeak, failing on the first character outside the table.
    ensures !StartsWithHexPrefix(p) && !(HasRegexSpecial(p) && e.compiles(p)) ==>
      (r.Ok? <==> Mappable(p)) && (r.Ok? ==> PatternDigits(r.value) == HexspeakDigits(p))
    // Both byte rules split off an uneven digit exactly when the text has odd length.
    ensures r.Ok? && r.value.Bytes? ==> WellFormed(r.value) && (r.value.uneven.Some? <==> |p| % 2 == 1)
  {
    if StartsWithHexPrefix(p) then
      match HexStrToBytes(p)
      case Err(err) => Err(err)
      case Ok(bytes) =>
        var t := TrimHexPrefix(p);
        SplitUnevenDigits(bytes, Digits(t));
        Ok(SplitUneven(bytes, |p| % 2 == 1))
    else if HasRegexSpecial(p) && e.compiles(p) then
      Ok(Regex(p))
    else
      match StringToHexspeak(p)
      case Err(err) => Err(err)
      case Ok(bytes) =>
        SplitUnevenDigits(bytes, HexspeakDigits(p));
        Ok(SplitUneven(bytes, |p| % 2 == 1))
  }

  /** `parse_pattern("0xabc")` is the needle `[0xab]` with uneven byte `0xc0`. */
  lemma ParseOddHexExample(e: RegexEngine)
    ensures Parse(e, "0xabc") == Ok(Bytes([0xab], Some(0xc0)))
  {
    var p := "0xabc";
    assert StartsWithHexPrefix(p) && p[2..] == "abc";
    assert !StartsWithHexPrefix("abc");
    assert TrimHexPrefix(p) == "abc";
    var r := Parse(e, p);
    assert Digits("abc") == [10, 11, 12];
    var needle := r.value.needle;
    var u := r.value.uneven.value;
    assert Nibbles(needle) + [u / 16] == [10, 11, 12];
    assert Nibbles(needle) == [10, 11] by {
      assert (Nibbles(needle) + [u / 16])[..2] == Nibbles(needle);
    }
    assert u / 16 == 12 && u % 16 == 0;
    assert Nibbles([0xab]) == [10, 11];
    NibblesInjective(needle, [0xab]);
  }

  /** `parse_pattern("0xa")` is the empty needle with uneven byte `0xa0`: the single
      digit lands in the high nibble. */
  lemma ParseOneDigitExample(e: RegexEngine)
    ensures Parse(e, "0xa") == Ok(Bytes([], Some(0xa0)))
  {
    var p := "0xa";
    assert StartsWithHexPrefix(p) && p[2..] == "a";
    assert !StartsWithHexPrefix("a");
    assert TrimHexPrefix(p) == "a";
    var r := Parse(e, p);
    assert Digits("a") == [10];
    var needle := r.value.needle;
    var u := r.value.uneven.value;
    assert Nibbles(needle) + [u / 16] == [10];
    assert |needle| == 0;
    assert u / 16 == 10 && u % 16 == 0;
  }

  /** A special character does not make a regex of a source that fails to compile,
      such as the unclosed group "ab(": the parser falls through to hexspeak. */
  lemma ParseInvalidRegexFallsBack(e: RegexEngine)
    requires !e.compiles("ab(")
    ensures Parse(e, "ab(") == Err(Unmappable('('))
  {
    var p := "ab(";
    assert !StartsWithHexPrefix(p);
    assert p[0] == 'a' && p[1] == 'b' && p[2] == '(';
    assert HexspeakChar(ToLower('(')) == None;
    assert MapHexspeak(p[2..]) == Err(Unmappable('('));
    assert p[1..][1..] == p[2..];
    assert MapHexspeak(p) == Err(Unmappable('('));
  }
}
