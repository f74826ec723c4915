/** The `encodeURI` function of ECMA-262 (the clause "encodeURI ( uri )",
    with the abstract operation "Encode ( string, extraUnescaped )" and the
    URI character classes of the clause "URI Syntax and Semantics"), on strings of Unicode scalar
    values, together with a percent-decoder that undoes it. */
module Uri {
  import opened Wrappers

  type Byte = b: int | 0 <= b < 256

  /** uriAlpha and DecimalDigit. */
  predicate IsAlphaNum(c: char) {
    'a' <= c <= 'z' || 'A' <= c <= 'Z' || '0' <= c <= '9'
  }

  /** uriMark. */
  predicate IsMark(c: char) {
    c in "-_.!~*'()"
  }

  /** uriReserved. */
  predicate IsReserved(c: char) {
    c in ";/?:@&=+$,"
  }

  /** The characters `encodeURI` copies unchanged: uriReserved, uriUnescaped
      (alphanumerics and uriMark) and `#`. Everything else, `%` included, is
      percent-encoded. */
  predicate IsUnescaped(c: char) {
    IsAlphaNum(c) || IsMark(c) || IsReserved(c) || c == '#'
  }

  /** Upper-case hexadecimal digit for a value below 16. */
  function HexDigit(n: nat): (c: char)
    requires n < 16
    ensures IsAlphaNum(c) && !('a' <= c <= 'z')
    ensures HexValue(c) == Some(n)
  {
    if n < 10 then ('0' as int + n) as char else ('A' as int + n - 10) as char
  }

  /** Value of a hexadecimal digit of either case. */
  function HexValue(c: char): (r: Option<nat>)
    ensures r.Some? ==> r.value < 16
  {
    if '0' <= c <= '9' then Some(c as int - '0' as int)
    else if 'A' <= c <= 'F' then Some(c as int - 'A' as int + 10)
    else if 'a' <= c <= 'f' then Some(c as int - 'a' as int + 10)
    else None
  }

  /** `%XY` for one octet, two upper-case hexadecimal digits. */
  function PercentByte(b: Byte): (r: string)
    ensures |r| == 3 && r[0] == '%'
  {
    ['%', HexDigit(b / 16), HexDigit(b % 16)]
  }

  function PercentEncode(bytes: seq<Byte>): (r: string)
    ensures |r| == 3 * |bytes|
    ensures IsEncodedText(r)
    decreases |bytes|
  {
    if |bytes| == 0 then "" else PercentByte(bytes[0]) + PercentEncode(bytes[1..])
  }

  predicate IsScalarValue(cp: int) {
    0 <= cp < 0xD800 || 0xE000 <= cp < 0x11_0000
  }

  /** The UTF-8 octets of a code point (the UTF-8 step of "Encode"), built
      from its 6-bit groups. */
  function Utf8(c: char): (bytes: seq<Byte>)
    ensures 1 <= |bytes| <= 4
    ensures |bytes| == (if c as int < 0x80 then 1 else if c as int < 0x800 then 2
                        else if c as int < 0x1_0000 then 3 else 4)
    ensures c as int < 0x80 ==> bytes == [c as int]
    ensures |bytes| == 2 ==> (bytes[0] as int - 0xC0) * 64 + (bytes[1] as int - 0x80) == c as int
    ensures |bytes| == 3 ==> ((bytes[0] as int - 0xE0) * 64 + (bytes[1] as int - 0x80)) * 64 + (bytes[2] as int - 0x80) == c as int
    ensures |bytes| == 4 ==>
      (((bytes[0] as int - 0xF0) * 64 + (bytes[1] as int - 0x80)) * 64 + (bytes[2] as int - 0x80)) * 64 + (bytes[3] as int - 0x80) == c as int
    ensures |bytes| == 1 <==> bytes[0] < 0x80
    ensures |bytes| == 2 ==> 0xC0 <= bytes[0] < 0xE0
    ensures |bytes| == 3 ==> 0xE0 <= bytes[0] < 0xF0
    ensures |bytes| == 4 ==> 0xF0 <= bytes[0] < 0xF8
    ensures forall i :: 1 <= i < |bytes| ==> 0x80 <= bytes[i] < 0xC0
  {
    var cp := c as int;
    var q1 := cp / 64;
    var q2 := q1 / 64;
    if cp < 0x80 then [cp]
    else if cp < 0x800 then [0xC0 + q1, 0x80 + cp % 64]
    else if cp < 0x1_0000 then [0xE0 + q2, 0x80 + q1 % 64, 0x80 + cp % 64]
    else [0xF0 + q2 / 64, 0x80 + q2 % 64, 0x80 + q1 % 64, 0x80 + cp % 64]
  }

  /** One character of the input: copied when unescaped, otherwise its UTF-8
      octets as `%XY` escapes. */
  function EncodeChar(c: char): (r: string)
    ensures |r| > 0
    ensures r[0] == '%' <==> !IsUnescaped(c)
    ensures IsUnescaped(c) ==> r == [c]
    ensures !IsUnescaped(c) ==> |r| == 3 * |Utf8(c)|
    ensures IsEncodedText(r)
  {
    if IsUnescaped(c) then [c] else PercentEncode(Utf8(c))
  }

  /** Every character of an encoded string is unescaped or the `%` that
      opens an escape. */
  predicate IsEncodedText(s: string) {
    forall i :: 0 <= i < |s| ==> IsUnescaped(s[i]) || s[i] == '%'
  }

  /** `encodeURI(s)`. The result only holds characters of the unescaped set
      and `%`; in particular it has no `"`, `<`, `>`, spaces or non-ASCII
      characters. A string made only of unescaped characters is returned
      unchanged. */
  function EncodeURI(s: string): (r: string)
    ensures IsEncodedText(r)
    ensures (forall i :: 0 <= i < |s| ==> IsUnescaped(s[i])) ==> r == s
    ensures |r| >= |s|
    decreases |s|
  {
    if |s| == 0 then "" else EncodeChar(s[0]) + EncodeURI(s[1..])
  }

  /** One step of `encodeURI`: the first character, then the rest. */
  lemma EncodeURIUnfold(s: string)
    requires |s| > 0
    ensures EncodeURI(s) == EncodeChar(s[0]) + EncodeURI(s[1..])
  {
  }

  /** `encodeURI` works character by character: it distributes over
      concatenation. */
  lemma {:induction false} EncodeURIConcat(a: string, b: string)
    ensures EncodeURI(a + b) == EncodeURI(a) + EncodeURI(b)
    decreases |a|
  {
    if |a| > 0 {
      EncodeURIUnfold(a + b);
      assert (a + b)[0] == a[0] && (a + b)[1..] == a[1..] + b;
      EncodeURIConcat(a[1..], b);
    } else {
      assert a + b == b;
    }
  }

  // ---- decoding -----------------------------------------------------------

  /** The octet written as `%XY` at the start of `s`, if there is one. */
  function EscapeAt(s: string): (r: Option<Byte>)
    ensures r.Some? ==> |s| >= 3
  {
    if |s| >= 3 && s[0] == '%' then
      match (HexValue(s[1]), HexValue(s[2]))
      case (Some(h), Some(l)) => Some(h * 16 + l)
      case _ => None
    else None
  }

  /** The 6 payload bits of the continuation octet escaped at `s[i..]`. */
  function ContinuationAt(s: string, i: nat): (r: Option<nat>)
    ensures r.Some? ==> i + 3 <= |s| && r.value < 64
  {
    if i <= |s| then
      match EscapeAt(s[i..])
      case Some(b) => if 0x80 <= b < 0xC0 then Some(b - 0x80) else None
      case None => None
    else None
  }

  function ScalarOf(cp: int, used: nat): Option<(char, nat)> {
    if IsScalarValue(cp) then Some((cp as char, used)) else None
  }

  /** Decodes the one character whose UTF-8 octets are escaped at the start
      of `s`, with the number of characters of `s` it takes up. */
  function DecodeEscapes(s: string): (r: Option<(char, nat)>)
    ensures r.Some? ==> 3 <= r.value.1 <= |s|
  {
    match EscapeAt(s)
    case None => None
    case Some(b0) =>
      if b0 < 0x80 then ScalarOf(b0, 3)
      else if b0 < 0xC0 then None
      else if b0 < 0xE0 then
        match ContinuationAt(s, 3)
        case Some(c1) => ScalarOf((b0 - 0xC0) * 64 + c1, 6)
        case None => None
      else if b0 < 0xF0 then
        match (ContinuationAt(s, 3), ContinuationAt(s, 6))
        case (Some(c1), Some(c2)) => ScalarOf(((b0 - 0xE0) * 64 + c1) * 64 + c2, 9)
        case _ => None
      else if b0 < 0xF8 then
        match (ContinuationAt(s, 3), ContinuationAt(s, 6), ContinuationAt(s, 9))
        case (Some(c1), Some(c2), Some(c3)) =>
          ScalarOf((((b0 - 0xF0) * 64 + c1) * 64 + c2) * 64 + c3, 12)
        case _ => None
      else None
  }

  /** Replaces every `%XY` escape sequence of UTF-8 octets by the character
      it encodes; `None` when an escape is malformed. */
  function PercentDecode(s: string): Option<string>
    decreases |s|
  {
    if |s| == 0 then Some("")
    else if s[0] == '%' then
      match DecodeEscapes(s)
      case None => None
      case Some((c, used)) =>
        match PercentDecode(s[used..])
        case None => None
        case Some(t) => Some([c] + t)
    else
      match PercentDecode(s[1..])
      case None => None
      case Some(t) => Some([s[0]] + t)
  }

  // ---- round trip ---------------------------------------------------------

  lemma HexRoundTrip(b: Byte)
    ensures EscapeAt(PercentByte(b)) == Some(b)
  {
  }

  /** The `i`-th escape of an encoded octet sequence reads back as the
      `i`-th octet, whatever follows. */
  lemma {:induction false} EscapeAtEncoded(bytes: seq<Byte>, rest: string, i: nat)
    requires i < |bytes|
    ensures 3 * i <= |PercentEncode(bytes) + rest|
    ensures EscapeAt((PercentEncode(bytes) + rest)[3 * i..]) == Some(bytes[i])
    decreases i
  {
    var s := PercentEncode(bytes) + rest;
    var tail := PercentEncode(bytes[1..]) + rest;
    assert s == PercentByte(bytes[0]) + tail;
    if i == 0 {
      HexRoundTrip(bytes[0]);
      assert s[..3] == PercentByte(bytes[0]);
      assert EscapeAt(s) == EscapeAt(s[..3]);
    } else {
      EscapeAtEncoded(bytes[1..], rest, i - 1);
      assert s[3 * i..] == tail[3 * (i - 1)..];
    }
  }

  /** The escapes `EncodeChar` writes for a character decode back to it. */
  lemma DecodeEncodedChar(c: char, rest: string)
    requires !IsUnescaped(c)
    ensures DecodeEscapes(EncodeChar(c) + rest) == Some((c, 3 * |Utf8(c)|))
  {
    var cp := c as int;
    if cp < 0x80 {
      DecodeEncodedOne(c, rest);
    } else if cp < 0x800 {
      DecodeEncodedTwo(c, rest);
    } else if cp < 0x1_0000 {
      DecodeEncodedThree(c, rest);
    } else {
      DecodeEncodedFour(c, rest);
    }
  }

  lemma DecodeEncodedOne(c: char, rest: string)
    requires !IsUnescaped(c) && c as int < 0x80
    ensures DecodeEscapes(EncodeChar(c) + rest) == Some((c, 3 * |Utf8(c)|))
  {
    var bytes := Utf8(c);
    var s := EncodeChar(c) + rest;
    assert s == PercentEncode(bytes) + rest;
    EscapeAtEncoded(bytes, rest, 0);
    assert s[0..] == s;
    DecodeOne(c as int, s);
  }

  lemma DecodeEncodedTwo(c: char, rest: string)
    requires !IsUnescaped(c) && 0x80 <= c as int < 0x800
    ensures DecodeEscapes(EncodeChar(c) + rest) == Some((c, 3 * |Utf8(c)|))
  {
    var bytes := Utf8(c);
    var s := EncodeChar(c) + rest;
    assert s == PercentEncode(bytes) + rest;
    EscapeAtEncoded(bytes, rest, 0);
    EscapeAtEncoded(bytes, rest, 1);
    assert s[0..] == s;
    DecodeTwo(c as int, s);
  }

  lemma DecodeEncodedThree(c: char, rest: string)
    requires !IsUnescaped(c) && 0x800 <= c as int < 0x1_0000
    ensures DecodeEscapes(EncodeChar(c) + rest) == Some((c, 3 * |Utf8(c)|))
  {
    var bytes := Utf8(c);
    var s := EncodeChar(c) + rest;
    assert s == PercentEncode(bytes) + rest;
    EscapeAtEncoded(bytes, rest, 0);
    EscapeAtEncoded(bytes, rest, 1);
    EscapeAtEncoded(bytes, rest, 2);
    assert s[0..] == s;
    DecodeThree(c as int, s);
  }

  lemma DecodeEncodedFour(c: char, rest: string)
    requires !IsUnescaped(c) && 0x1_0000 <= c as int
    ensures DecodeEscapes(EncodeChar(c) + rest) == Some((c, 3 * |Utf8(c)|))
  {
    var bytes := Utf8(c);
    var s := EncodeChar(c) + rest;
    assert s == PercentEncode(bytes) + rest;
    EscapeAtEncoded(bytes, rest, 0);
    EscapeAtEncoded(bytes, rest, 1);
    EscapeAtEncoded(bytes, rest, 2);
    EscapeAtEncoded(bytes, rest, 3);
    assert s[0..] == s;
    DecodeFour(c as int, s);
  }

  lemma DecodeOne(cp: int, s: string)
    requires 0 <= cp < 0x80
    requires EscapeAt(s) == Some(cp)
    ensures DecodeEscapes(s) == Some((cp as char, 3))
  {
  }

  lemma DecodeTwo(cp: int, s: string)
    requires 0x80 <= cp < 0x800
    requires EscapeAt(s) == Some(0xC0 + cp / 64)
    requires |s| >= 3 && EscapeAt(s[3..]) == Some(0x80 + cp % 64)
    ensures DecodeEscapes(s) == Some((cp as char, 6))
  {
    assert ContinuationAt(s, 3) == Some(cp % 64);
    assert (cp / 64) * 64 + cp % 64 == cp;
  }

  lemma DecodeThree(cp: int, s: string)
    requires 0x800 <= cp < 0x1_0000 && IsScalarValue(cp)
    requires EscapeAt(s) == Some(0xE0 + cp / 64 / 64)
    requires |s| >= 6 && EscapeAt(s[3..]) == Some(0x80 + cp / 64 % 64)
    requires EscapeAt(s[6..]) == Some(0x80 + cp % 64)
    ensures DecodeEscapes(s) == Some((cp as char, 9))
  {
    var q1 := cp / 64;
    assert ContinuationAt(s, 3) == Some(q1 % 64);
    assert ContinuationAt(s, 6) == Some(cp % 64);
    assert (q1 / 64) * 64 + q1 % 64 == q1;
    assert q1 * 64 + cp % 64 == cp;
  }

  lemma DecodeFour(cp: int, s: string)
    requires 0x1_0000 <= cp < 0x11_0000
    requires EscapeAt(s) == Some(0xF0 + cp / 64 / 64 / 64)
    requires |s| >= 9 && EscapeAt(s[3..]) == Some(0x80 + cp / 64 / 64 % 64)
    requires EscapeAt(s[6..]) == Some(0x80 + cp / 64 % 64)
    requires EscapeAt(s[9..]) == Some(0x80 + cp % 64)
    ensures DecodeEscapes(s) == Some((cp as char, 12))
  {
    var q1 := cp / 64;
    var q2 := q1 / 64;
    assert ContinuationAt(s, 3) == Some(q2 % 64);
    assert ContinuationAt(s, 6) == Some(q1 % 64);
    assert ContinuationAt(s, 9) == Some(cp % 64);
    assert (q2 / 64) * 64 + q2 % 64 == q2;
    assert q2 * 64 + q1 % 64 == q1;
    assert q1 * 64 + cp % 64 == cp;
  }

  /** Percent-decoding undoes `encodeURI`: no information is lost. */
  lemma {:induction false} DecodeEncodeURI(s: string)
    ensures PercentDecode(EncodeURI(s)) == Some(s)
    decreases |s|
  {
    if |s| > 0 {
      var c := s[0];
      var tail := EncodeURI(s[1..]);
      var e := EncodeURI(s);
      assert e == EncodeChar(c) + tail;
      DecodeEncodeURI(s[1..]);
      if IsUnescaped(c) {
        assert e[1..] == tail;
      } else {
        DecodeEncodedChar(c, tail);
        assert e[3 * |Utf8(c)|..] == tail;
      }
      assert s == [c] + s[1..];
    }
  }
}
