/** ECMAScript `encodeURIComponent`: a string is encoded to UTF-8 (RFC 3629)
    and every byte other than an ASCII letter, digit or one of `-_.!~*'()`
    is written as a `%XX` triplet with upper-case hex digits (section 2.1 of
    RFC 3986). A decoder for that output is defined beside it, so that the
    encoding can be shown to lose nothing. */
module UriEncoding {
  import opened Wrappers

  type byte = x: int | 0 <= x < 256

  // ---------------------------------------------------------------- UTF-8

  /** The UTF-8 bytes of one code point. */
  function CharToUtf8(c: char): (bs: seq<byte>)
    ensures 1 <= |bs| <= 4
  {
    var cp := c as int;
    if cp < 0x80 then [cp]
    else if cp < 0x800 then [0xC0 + cp / 64, 0x80 + cp % 64]
    else if cp < 0x10000 then [0xE0 + cp / 4096, 0x80 + (cp / 64) % 64, 0x80 + cp % 64]
    else [0xF0 + cp / 262144, 0x80 + (cp / 4096) % 64, 0x80 + (cp / 64) % 64, 0x80 + cp % 64]
  }

  function Utf8Encode(s: string): seq<byte> {
    if s == [] then [] else CharToUtf8(s[0]) + Utf8Encode(s[1..])
  }

  predicate IsContinuation(b: byte) {
    0x80 <= b < 0xC0
  }

  /** Decodes the code point at the front of `bs`, with the number of bytes it
      takes; rejects stray continuation bytes, overlong forms, surrogates and
      values above U+10FFFF. */
  function DecodeFirst(bs: seq<byte>): (r: Option<(char, nat)>)
    requires bs != []
    ensures r.Some? ==> 1 <= r.value.1 <= |bs|
  {
    var b0: int := bs[0];
    if b0 < 0x80 then Some((b0 as char, 1))
    else if 0xC0 <= b0 < 0xE0 then
      if |bs| < 2 || !IsContinuation(bs[1]) then None
      else
        var cp: int := (b0 - 0xC0) * 64 + (bs[1] as int - 0x80);
        if cp < 0x80 then None else Some((cp as char, 2))
    else if 0xE0 <= b0 < 0xF0 then
      if |bs| < 3 || !IsContinuation(bs[1]) || !IsContinuation(bs[2]) then None
      else
        var cp: int := (b0 - 0xE0) * 4096 + (bs[1] as int - 0x80) * 64 + (bs[2] as int - 0x80);
        if cp < 0x800 || (0xD800 <= cp < 0xE000) then None else Some((cp as char, 3))
    else if 0xF0 <= b0 < 0xF8 then
      if |bs| < 4 || !IsContinuation(bs[1]) || !IsContinuation(bs[2]) || !IsContinuation(bs[3]) then None
      else
        var cp: int := (b0 - 0xF0) * 262144 + (bs[1] as int - 0x80) * 4096 + (bs[2] as int - 0x80) * 64 + (bs[3] as int - 0x80);
        if cp < 0x10000 || cp >= 0x110000 then None else Some((cp as char, 4))
    else None
  }

  function Utf8Decode(bs: seq<byte>): Option<string>
    decreases |bs|
  {
    if bs == [] then Some([])
    else match DecodeFirst(bs)
      case None => None
      case Some((c, k)) =>
        match Utf8Decode(bs[k..])
        case None => None
        case Some(rest) => Some([c] + rest)
  }

  /** Splitting a three-byte code point into 4 + 6 + 6 bits loses nothing. */
  lemma ThreeByteSplit(cp: int)
    requires 0x800 <= cp < 0x10000
    ensures 0 <= cp / 4096 < 16
    ensures (cp / 4096) * 4096 + ((cp / 64) % 64) * 64 + cp % 64 == cp
  {
    assert cp == (cp / 64) * 64 + cp % 64;
    assert cp / 64 == (cp / 64 / 64) * 64 + (cp / 64) % 64;
    assert cp / 64 / 64 == cp / 4096;
  }

  /** Splitting a four-byte code point into 3 + 6 + 6 + 6 bits loses nothing. */
  lemma FourByteSplit(cp: int)
    requires 0x10000 <= cp < 0x110000
    ensures 0 <= cp / 262144 < 5
    ensures (cp / 262144) * 262144 + ((cp / 4096) % 64) * 4096 + ((cp / 64) % 64) * 64 + cp % 64 == cp
  {
    assert cp == (cp / 64) * 64 + cp % 64;
    assert cp / 64 == (cp / 4096) * 64 + (cp / 64) % 64;
    assert cp / 4096 == (cp / 262144) * 64 + (cp / 4096) % 64;
  }

  lemma DecodeFirstOfThreeBytes(c: char, rest: seq<byte>)
    requires 0x800 <= c as int < 0x10000
    ensures DecodeFirst(CharToUtf8(c) + rest) == Some((c, 3))
  {
    var cp := c as int;
    var bs := CharToUtf8(c) + rest;
    ThreeByteSplit(cp);
    assert bs[0] == 0xE0 + cp / 4096 && bs[1] == 0x80 + (cp / 64) % 64 && bs[2] == 0x80 + cp % 64;
    assert (cp as char) == c;
  }

  lemma DecodeFirstOfFourBytes(c: char, rest: seq<byte>)
    requires 0x10000 <= c as int
    ensures DecodeFirst(CharToUtf8(c) + rest) == Some((c, 4))
  {
    var cp := c as int;
    var bs := CharToUtf8(c) + rest;
    FourByteSplit(cp);
    assert bs[0] == 0xF0 + cp / 262144 && bs[1] == 0x80 + (cp / 4096) % 64;
    assert bs[2] == 0x80 + (cp / 64) % 64 && bs[3] == 0x80 + cp % 64;
    assert (cp as char) == c;
  }

  /** The bytes of one code point decode back to it, whatever follows them. */
  lemma DecodeFirstOfChar(c: char, rest: seq<byte>)
    ensures DecodeFirst(CharToUtf8(c) + rest) == Some((c, |CharToUtf8(c)|))
  {
    var cp := c as int;
    var bs := CharToUtf8(c) + rest;
    if cp < 0x80 {
    } else if cp < 0x800 {
      assert bs[0] == 0xC0 + cp / 64 && bs[1] == 0x80 + cp % 64;
      assert (cp / 64) * 64 + cp % 64 == cp;
      assert (cp as char) == c;
    } else if cp < 0x10000 {
      DecodeFirstOfThreeBytes(c, rest);
    } else {
      DecodeFirstOfFourBytes(c, rest);
    }
  }

  /** UTF-8 decoding undoes UTF-8 encoding. */
  lemma {:induction false} Utf8RoundTrip(s: string)
    ensures Utf8Decode(Utf8Encode(s)) == Some(s)
  {
    if s != [] {
      var head := CharToUtf8(s[0]);
      var bs := Utf8Encode(s);
      assert bs == head + Utf8Encode(s[1..]);
      DecodeFirstOfChar(s[0], Utf8Encode(s[1..]));
      assert bs[|head|..] == Utf8Encode(s[1..]);
      Utf8RoundTrip(s[1..]);
      assert [s[0]] + s[1..] == s;
    }
  }

  // ---------------------------------------------------- percent-encoding

  /** The bytes `encodeURIComponent` leaves as they are: ASCII letters,
      digits and `-_.!~*'()`. */
  predicate IsUnreservedChar(c: char) {
    || ('A' <= c <= 'Z') || ('a' <= c <= 'z') || ('0' <= c <= '9')
    || c == '-' || c == '_' || c == '.' || c == '!' || c == '~' || c == '*'
    || c == '\'' || c == '(' || c == ')'
  }

  predicate IsUnreservedByte(b: byte) {
    b < 0x80 && IsUnreservedChar(b as char)
  }

  const UpperHex: string := "0123456789ABCDEF"

  predicate IsUpperHexDigit(c: char) {
    ('0' <= c <= '9') || ('A' <= c <= 'F')
  }

  function HexValue(c: char): Option<int> {
    if '0' <= c <= '9' then Some(c as int - '0' as int)
    else if 'A' <= c <= 'F' then Some(c as int - 'A' as int + 10)
    else if 'a' <= c <= 'f' then Some(c as int - 'a' as int + 10)
    else None
  }

  lemma HexDigitValue(d: int)
    requires 0 <= d < 16
    ensures IsUpperHexDigit(UpperHex[d]) && HexValue(UpperHex[d]) == Some(d)
  {
  }

  /** One byte as it appears in the output. */
  function EncodeByte(b: byte): string {
    if IsUnreservedByte(b) then [b as char] else ['%', UpperHex[b / 16], UpperHex[b % 16]]
  }

  function PercentEncode(bs: seq<byte>): string {
    if bs == [] then [] else EncodeByte(bs[0]) + PercentEncode(bs[1..])
  }

  /** `encodeURIComponent(s)`. */
  function EncodeUriComponent(s: string): string {
    PercentEncode(Utf8Encode(s))
  }

  /** Reads `%XX` triplets (hex digits of either case) and plain ASCII
      characters back into bytes. */
  function PercentDecode(t: string): Option<seq<byte>>
    decreases |t|
  {
    if t == [] then Some([])
    else if t[0] == '%' then
      if |t| < 3 || HexValue(t[1]).None? || HexValue(t[2]).None? then None
      else
        var b := HexValue(t[1]).value * 16 + HexValue(t[2]).value;
        if !(0 <= b < 256) then None
        else match PercentDecode(t[3..])
          case None => None
          case Some(rest) => Some([b] + rest)
    else if t[0] as int < 0x80 then
      match PercentDecode(t[1..])
      case None => None
      case Some(rest) => Some([t[0] as int] + rest)
    else None
  }

  /** The inverse of `EncodeUriComponent` on its outputs. */
  function DecodeUriComponent(t: string): Option<string> {
    match PercentDecode(t)
    case None => None
    case Some(bs) => Utf8Decode(bs)
  }

  lemma {:induction false} PercentRoundTrip(bs: seq<byte>)
    ensures PercentDecode(PercentEncode(bs)) == Some(bs)
  {
    if bs != [] {
      var b := bs[0];
      var t := PercentEncode(bs);
      var tail := PercentEncode(bs[1..]);
      assert t == EncodeByte(b) + tail;
      PercentRoundTrip(bs[1..]);
      if IsUnreservedByte(b) {
        assert t[0] == b as char && t[1..] == tail;
      } else {
        HexDigitValue(b / 16);
        HexDigitValue(b % 16);
        assert t[0] == '%' && t[1] == UpperHex[b / 16] && t[2] == UpperHex[b % 16];
        assert t[3..] == tail;
      }
      assert [b] + bs[1..] == bs;
    }
  }

  /** Decoding the output of `encodeURIComponent` gives the input back. */
  lemma EncodeRoundTrip(s: string)
    ensures DecodeUriComponent(EncodeUriComponent(s)) == Some(s)
  {
    PercentRoundTrip(Utf8Encode(s));
    Utf8RoundTrip(s);
  }

  /** Distinct strings have distinct encodings. */
  lemma EncodeInjective(s1: string, s2: string)
    requires EncodeUriComponent(s1) == EncodeUriComponent(s2)
    ensures s1 == s2
  {
    EncodeRoundTrip(s1);
    EncodeRoundTrip(s2);
  }

  /** The shape of the output: unreserved characters and `%XX` triplets with
      upper-case hex digits, nothing else. */
  predicate IsEncodedForm(t: string)
    decreases |t|
  {
    if t == [] then true
    else if IsUnreservedChar(t[0]) then IsEncodedForm(t[1..])
    else |t| >= 3 && t[0] == '%' && IsUpperHexDigit(t[1]) && IsUpperHexDigit(t[2]) && IsEncodedForm(t[3..])
  }

  lemma {:induction false} PercentEncodeForm(bs: seq<byte>)
    ensures IsEncodedForm(PercentEncode(bs))
  {
    if bs != [] {
      var b := bs[0];
      var t := PercentEncode(bs);
      var tail := PercentEncode(bs[1..]);
      assert t == EncodeByte(b) + tail;
      PercentEncodeForm(bs[1..]);
      if IsUnreservedByte(b) {
        assert t[1..] == tail;
      } else {
        HexDigitValue(b / 16);
        HexDigitValue(b % 16);
        assert t[3..] == tail;
      }
    }
  }

  lemma EncodeForm(s: string)
    ensures IsEncodedForm(EncodeUriComponent(s))
  {
    PercentEncodeForm(Utf8Encode(s));
  }

  /** A string made only of unreserved characters is its own encoding. */
  lemma {:induction false} UnreservedUnchanged(s: string)
    requires forall i :: 0 <= i < |s| ==> IsUnreservedChar(s[i])
    ensures EncodeUriComponent(s) == s
  {
    if s != [] {
      UnreservedUnchanged(s[1..]);
      assert Utf8Encode(s) == [s[0] as int] + Utf8Encode(s[1..]);
      assert EncodeUriComponent(s) == EncodeByte(s[0] as int) + EncodeUriComponent(s[1..]);
      assert [s[0]] + s[1..] == s;
    }
  }
}
