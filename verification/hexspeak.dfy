/**
  Hexspeak: a word spelt with letters that look like hex digits is turned
  into the hex text it resembles, then decoded like any other pattern.
 */
module Hexspeak {
  import opened Wrappers
  import opened Hex

  /** Lower-casing as `str::to_lowercase` does it on the ASCII range. */
  function ToLower(c: char): char {
    if 'A' <= c <= 'Z' then (c as int - 'A' as int + 'a' as int) as char else c
  }

  /** The look-alike table, keyed by lower-case character. */
  function HexspeakChar(c: char): Option<char> {
    match c
    case 'a' => Some('a')
    case 'b' => Some('b')
    case 'c' => Some('c')
    case 'd' => Some('d')
    case 'e' => Some('e')
    case 'f' => Some('f')
    case 'g' => Some('9')
    case 'i' => Some('1')
    case 'j' => Some('1')
    case 'l' => Some('1')
    case 'o' => Some('0')
    case 'q' => Some('9')
    case 's' => Some('5')
    case 't' => Some('7')
    case 'z' => Some('2')
    case _ => if '0' <= c <= '9' then Some(c) else None
  }

  /** Every character of the word, once lower-cased, is in the table. */
  predicate Mappable(s: string) {
    forall i :: 0 <= i < |s| ==> HexspeakChar(ToLower(s[i])).Some?
  }

  /** The character loop of `string_to_hexspeak`: the first character outside the
      table (lower-cased) is the error. */
  function MapHexspeak(s: string): (r: Result<string, DecodeError>)
    ensures r.Ok? <==> Mappable(s)
    ensures r.Ok? ==> |r.value| == |s| && AllHex(r.value)
    ensures r.Ok? ==> forall i :: 0 <= i < |s| ==> r.value[i] == HexspeakChar(ToLower(s[i])).value
    ensures r.Err? ==> r.error.Unmappable? && HexspeakChar(r.error.c).None?
    ensures r.Err? ==> exists i :: 0 <= i < |s| && r.error.c == ToLower(s[i]) && Mappable(s[..i])
  {
    if |s| == 0 then Ok("")
    else
      match HexspeakChar(ToLower(s[0]))
      case None =>
        assert Mappable(s[..0]);
        Err(Unmappable(ToLower(s[0])))
      case Some(h) =>
        match MapHexspeak(s[1..])
        case Err(e) =>
          var i :| 0 <= i < |s[1..]| && e.c == ToLower(s[1..][i]) && Mappable(s[1..][..i]);
          assert s[1..][i] == s[i + 1];
          assert Mappable(s[..i + 1]) by {
            var pre := s[..i + 1];
            forall k | 0 <= k < |pre| ensures HexspeakChar(ToLower(pre[k])).Some? {
              if k > 0 {
                assert pre[k] == s[1..][..i][k - 1];
              }
            }
          }
          Err(e)
        case Ok(rest) =>
          var m := [h] + rest;
          assert forall i :: 1 <= i < |s| ==> m[i] == rest[i - 1] && s[i] == s[1..][i - 1];
          Ok(m)
  }

  /** The nibble values a mappable word stands for. */
  function HexspeakDigits(s: string): (ds: seq<nibble>)
    requires Mappable(s)
    ensures |ds| == |s|
  {
    Digits(MapHexspeak(s).value)
  }

  /** `string_to_hexspeak`: map through the table, then `hex_str_to_bytes`. */
  function StringToHexspeak(s: string): (r: Result<seq<byte>, DecodeError>)
    ensures r.Ok? <==> Mappable(s)
    ensures r.Ok? ==> r == HexStrToBytes(MapHexspeak(s).value)
    ensures r.Ok? ==> |r.value| == (|s| + 1) / 2
    ensures r.Ok? ==> Nibbles(r.value) == HexspeakDigits(s) + Pad(|s|)
  {
    match MapHexspeak(s)
    case Err(e) => Err(e)
    case Ok(m) =>
      assert !StartsWithHexPrefix(m) by {
        if |m| >= 2 { assert IsHexDigit(m[1]); }
      }
      assert TrimHexPrefix(m) == m;
      HexStrToBytes(m)
  }

  /** `string_to_hexspeak("ace")` is `[0xac, 0xe0]`. */
  lemma HexspeakExample()
    ensures StringToHexspeak("ace") == Ok([0xac, 0xe0])
  {
    var m := MapHexspeak("ace");
    assert m.value == "ace";
    var r := StringToHexspeak("ace");
    assert HexspeakDigits("ace") == Digits("ace") == [10, 12, 14];
    assert Pad(3) == [0];
    assert Nibbles([0xac, 0xe0]) == [10, 12, 14, 0];
    NibblesInjective(r.value, [0xac, 0xe0]);
  }

  /** A letter outside the table is reported, lower-cased. */
  lemma HexspeakRejectExample()
    ensures StringToHexspeak("Hi") == Err(Unmappable('h'))
  {
    var s := "Hi";
    assert s[0] == 'H' && ToLower(s[0]) == 'h';
    assert HexspeakChar('h') == None;
    assert MapHexspeak(s) == Err(Unmappable('h'));
  }
}
