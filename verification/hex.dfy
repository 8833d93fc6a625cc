/**
  Hexadecimal text and the bytes and nibbles it stands for: the decoder
  used for patterns (`hex_str_to_bytes`, which pads an odd trailing digit),
  the decoder used for addresses (`hex::decode`, which refuses odd length),
  and a lower-case encoder as their inverse.
 */
module Hex {
  import opened Wrappers

  /** An octet (`u8`). */
  type byte = x: int | 0 <= x < 256

  /** Four bits: the value of one hexadecimal digit. */
  type nibble = x: int | 0 <= x < 16

  /** Why decoding a pattern or an address failed. Messages are not modelled. */
  datatype DecodeError =
    | InvalidPair(pair: string)   // a chunk that is not two hex digits
    | OddLength                   // an address text with an odd number of digits
    | Unmappable(c: char)         // a hexspeak character outside the table

  predicate IsHexDigit(c: char) {
    '0' <= c <= '9' || 'a' <= c <= 'f' || 'A' <= c <= 'F'
  }

  predicate AllHex(s: string) {
    forall i :: 0 <= i < |s| ==> IsHexDigit(s[i])
  }

  function DigitValue(c: char): nibble
    requires IsHexDigit(c)
  {
    if '0' <= c <= '9' then c as int - '0' as int
    else if 'a' <= c <= 'f' then c as int - 'a' as int + 10
    else c as int - 'A' as int + 10
  }

  /** The lower-case digit of a nibble. */
  function HexChar(v: nibble): (c: char)
    ensures IsHexDigit(c) && DigitValue(c) == v
  {
    if v < 10 then ('0' as int + v) as char else ('a' as int + v - 10) as char
  }

  /** The nibble values of a text of hex digits, one per character. */
  function Digits(s: string): (ds: seq<nibble>)
    requires AllHex(s)
    ensures |ds| == |s|
  {
    if |s| == 0 then [] else [DigitValue(s[0])] + Digits(s[1..])
  }

  lemma {:induction false} DigitsIndex(s: string)
    requires AllHex(s)
    ensures forall i :: 0 <= i < |s| ==> Digits(s)[i] == DigitValue(s[i])
  {
    if |s| > 0 {
      DigitsIndex(s[1..]);
      assert forall i :: 1 <= i < |s| ==> s[i] == s[1..][i - 1];
    }
  }

  /** The nibbles of a byte string, high nibble of each byte first. */
  function Nibbles(bs: seq<byte>): (ns: seq<nibble>)
    ensures |ns| == 2 * |bs|
  {
    if |bs| == 0 then [] else [bs[0] / 16, bs[0] % 16] + Nibbles(bs[1..])
  }

  /** Nibble `2k` of a byte string is the high half of byte `k`, nibble `2k+1` the low half. */
  lemma {:induction false} NibblesIndex(bs: seq<byte>)
    ensures forall k :: 0 <= k < |bs| ==> Nibbles(bs)[2 * k] == bs[k] / 16 && Nibbles(bs)[2 * k + 1] == bs[k] % 16
  {
    if |bs| > 0 {
      NibblesIndex(bs[1..]);
      var ns := Nibbles(bs);
      forall k | 1 <= k < |bs|
        ensures ns[2 * k] == bs[k] / 16 && ns[2 * k + 1] == bs[k] % 16
      {
        assert bs[k] == bs[1..][k - 1];
        assert ns[2 * k] == Nibbles(bs[1..])[2 * (k - 1)];
        assert ns[2 * k + 1] == Nibbles(bs[1..])[2 * (k - 1) + 1];
      }
    }
  }

  /** The zero nibble a decoder appends to a text of odd length. */
  function Pad(n: nat): seq<nibble> {
    if n % 2 == 1 then [0] else []
  }

  predicate StartsWithHexPrefix(s: string) {
    |s| >= 2 && s[0] == '0' && s[1] == 'x'
  }

  /** `str::trim_start_matches("0x")`: every leading "0x" is removed, not just one. */
  function TrimHexPrefix(s: string): (t: string)
    ensures |t| <= |s| && t == s[|s| - |t|..]
    ensures !StartsWithHexPrefix(t)
    ensures (|s| - |t|) % 2 == 0
    decreases |s|
  {
    if StartsWithHexPrefix(s) then TrimHexPrefix(s[2..]) else s
  }

  /** What `TrimHexPrefix` removes is a run of "0x" and nothing else. */
  lemma {:induction false} TrimRemovesOnlyHexPrefixes(s: string)
    ensures forall k :: 0 <= k < |s| - |TrimHexPrefix(s)| ==> s[k] == (if k % 2 == 0 then '0' else 'x')
    decreases |s|
  {
    if StartsWithHexPrefix(s) {
      TrimRemovesOnlyHexPrefixes(s[2..]);
      forall k | 2 <= k < |s| - |TrimHexPrefix(s)|
        ensures s[k] == (if k % 2 == 0 then '0' else 'x')
      {
        assert s[k] == s[2..][k - 2];
      }
    }
  }

  /** One chunk of at most two characters, a lone one padded with '0', read as
      `u8::from_str_radix(chunk, 16)`. */
  function ChunkValue(chunk: string): (r: Result<byte, DecodeError>)
    requires 1 <= |chunk| <= 2
    ensures r.Ok? <==> AllHex(chunk)
    ensures r.Ok? ==> r.value / 16 == DigitValue(chunk[0])
    ensures r.Ok? ==> r.value % 16 == (if |chunk| == 2 then DigitValue(chunk[1]) else 0)
  {
    var padded := if |chunk| == 1 then chunk + "0" else chunk;
    if IsHexDigit(padded[0]) && IsHexDigit(padded[1]) then
      Ok(16 * DigitValue(padded[0]) + DigitValue(padded[1]))
    else
      Err(InvalidPair(padded))
  }

  lemma AllHexSplit(t: string, n: nat)
    requires n <= |t|
    ensures AllHex(t) <==> AllHex(t[..n]) && AllHex(t[n..])
  {
    if AllHex(t[..n]) && AllHex(t[n..]) {
      forall i | 0 <= i < |t| ensures IsHexDigit(t[i]) {
        if i < n { assert t[i] == t[..n][i]; } else { assert t[i] == t[n..][i - n]; }
      }
    }
  }

  /** The chunk loop of `hex_str_to_bytes`: consecutive pairs, the last one
      possibly a single padded digit; the first bad chunk is reported. */
  function DecodeChunks(t: string): (r: Result<seq<byte>, DecodeError>)
    ensures r.Ok? <==> AllHex(t)
    ensures r.Ok? ==> Nibbles(r.value) == Digits(t) + Pad(|t|)
    decreases |t|
  {
    if |t| == 0 then Ok([])
    else
      var n := if |t| == 1 then 1 else 2;
      AllHexSplit(t, n);
      match ChunkValue(t[..n])
      case Err(e) => Err(e)
      case Ok(b) =>
        match DecodeChunks(t[n..])
        case Err(e) => Err(e)
        case Ok(rest) =>
          DecodeChunksStep(t, n, b, rest);
          Ok([b] + rest)
  }

  lemma DecodeChunksStep(t: string, n: nat, b: byte, rest: seq<byte>)
    requires n == (if |t| == 1 then 1 else 2) && 1 <= |t| && AllHex(t)
    requires b / 16 == DigitValue(t[0])
    requires b % 16 == (if n == 2 then DigitValue(t[1]) else 0)
    requires AllHex(t[n..]) && Nibbles(rest) == Digits(t[n..]) + Pad(|t[n..]|)
    ensures Nibbles([b] + rest) == Digits(t) + Pad(|t|)
  {
    assert ([b] + rest)[1..] == rest;
    var lhs := Nibbles([b] + rest);
    assert lhs == [b / 16, b % 16] + Nibbles(rest);
    if n == 1 {
      assert t[n..] == [];
      assert Digits(t) == [DigitValue(t[0])];
    } else {
      assert t[1..][1..] == t[2..];
      assert Digits(t) == [DigitValue(t[0]), DigitValue(t[1])] + Digits(t[2..]);
    }
  }

  /** `hex_str_to_bytes`: strip every leading "0x", then decode the rest chunk by chunk. */
  function HexStrToBytes(s: string): (r: Result<seq<byte>, DecodeError>)
    ensures r.Ok? <==> AllHex(TrimHexPrefix(s))
    ensures r.Ok? ==> |r.value| == (|TrimHexPrefix(s)| + 1) / 2
    ensures r.Ok? ==> Nibbles(r.value) == Digits(TrimHexPrefix(s)) + Pad(|s|)
  {
    var t := TrimHexPrefix(s);
    assert Pad(|s|) == Pad(|t|);
    DecodeChunks(t)
  }

  /** `hex::decode` on an address: odd length or any non-digit is an error.
      (Its error kinds are not observable in the engine and are not distinguished.) */
  function HexDecode(s: string): (r: Result<seq<byte>, DecodeError>)
    ensures r.Ok? <==> |s| % 2 == 0 && AllHex(s)
    ensures r.Ok? ==> Nibbles(r.value) == Digits(s)
  {
    if |s| % 2 != 0 then Err(OddLength) else DecodeChunks(s)
  }

  /** Lower-case hex rendering of a byte string, the inverse of both decoders. */
  function ToHex(bs: seq<byte>): (s: string)
    ensures AllHex(s) && |s| == 2 * |bs|
    ensures Digits(s) == Nibbles(bs)
  {
    if |bs| == 0 then ""
    else
      var s := [HexChar(bs[0] / 16), HexChar(bs[0] % 16)] + ToHex(bs[1..]);
      assert s[1..][1..] == ToHex(bs[1..]);
      s
  }

  lemma {:induction false} NibblesAppend(x: seq<byte>, y: seq<byte>)
    ensures Nibbles(x + y) == Nibbles(x) + Nibbles(y)
  {
    if |x| > 0 {
      assert (x + y)[1..] == x[1..] + y;
      NibblesAppend(x[1..], y);
    } else {
      assert x + y == y;
    }
  }

  /** Distinct byte strings have distinct nibble strings. */
  lemma NibblesInjective(x: seq<byte>, y: seq<byte>)
    requires Nibbles(x) == Nibbles(y)
    ensures x == y
  {
    assert |x| == |y|;
    NibblesIndex(x);
    NibblesIndex(y);
    forall k | 0 <= k < |x| ensures x[k] == y[k] {
      assert Nibbles(x)[2 * k] == Nibbles(y)[2 * k];
      assert Nibbles(x)[2 * k + 1] == Nibbles(y)[2 * k + 1];
    }
  }

  lemma TwiceIsEven(k: nat)
    ensures (2 * k) % 2 == 0
  {
  }

  /** The chunk decoder undoes the renderer. */
  lemma DecodeChunksRoundTrip(bs: seq<byte>)
    ensures DecodeChunks(ToHex(bs)) == Ok(bs)
  {
    var s := ToHex(bs);
    var r := DecodeChunks(s);
    TwiceIsEven(|bs|);
    assert Pad(|s|) == [];
    assert Digits(s) + [] == Digits(s);
    NibblesInjective(r.value, bs);
  }

  /** Decoding a rendered address gives its bytes back. */
  lemma HexDecodeRoundTrip(bs: seq<byte>)
    ensures HexDecode(ToHex(bs)) == Ok(bs)
  {
    DecodeChunksRoundTrip(bs);
  }

  /** Decoding a rendered byte string as a pattern gives its bytes back: the
      rendering never starts with "0x". */
  lemma HexStrToBytesRoundTrip(bs: seq<byte>)
    ensures HexStrToBytes(ToHex(bs)) == Ok(bs)
  {
    var s := ToHex(bs);
    assert !StartsWithHexPrefix(s) by {
      if |s| >= 2 { assert IsHexDigit(s[1]); }
    }
    assert TrimHexPrefix(s) == s;
    DecodeChunksRoundTrip(bs);
  }

  /** A single "0x" in front of a text that does not itself start with "0x" is all that is trimmed. */
  lemma TrimSinglePrefix(t: string)
    requires !StartsWithHexPrefix(t)
    ensures TrimHexPrefix("0x" + t) == t
  {
    assert ("0x" + t)[2..] == t;
  }

  lemma ToHexExample()
    ensures ToHex([0xab, 0xcd]) == "abcd"
  {
    assert ToHex([0xcd]) == "cd";
  }

  /** `hex_str_to_bytes("0xabcd")` is `[0xab, 0xcd]`. */
  lemma HexStrToBytesEvenExample()
    ensures HexStrToBytes("0xabcd") == Ok([0xab, 0xcd])
  {
    ToHexExample();
    TrimSinglePrefix("abcd");
    HexStrToBytesAfterPrefix("abcd", [0xab, 0xcd]);
  }

  lemma HexStrToBytesAfterPrefix(t: string, bs: seq<byte>)
    requires ToHex(bs) == t
    ensures HexStrToBytes("0x" + t) == Ok(bs)
  {
    HexStrToBytesRoundTrip(bs);
    assert !StartsWithHexPrefix(t) by {
      if |t| >= 2 { assert IsHexDigit(t[1]); }
    }
    TrimSinglePrefix(t);
  }

  /** `hex_str_to_bytes("abc")` is `[0xab, 0xc0]`: the lone last digit is padded. */
  lemma HexStrToBytesOddExample()
    ensures HexStrToBytes("abc") == Ok([0xab, 0xc0])
  {
    assert !StartsWithHexPrefix("abc");
    assert TrimHexPrefix("abc") == "abc";
    var r := DecodeChunks("abc");
    assert Digits("abc") == [10, 11, 12];
    assert Pad(3) == [0];
    assert Nibbles(r.value) == [10, 11, 12, 0];
    assert Nibbles([0xab, 0xc0]) == [10, 11, 12, 0];
    NibblesInjective(r.value, [0xab, 0xc0]);
  }
}
