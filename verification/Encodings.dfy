/**
 * The spellings of a secret that are masked (the encoders of arbiter-credential/src/inject.rs), and
 * the readers they are meant for.
 */
module Encodings {
  import opened Common
  import opened Masking

  function ByteOf(n: nat): Byte
    requires n < 256
  {
    n as char
  }

  function Digit(n: nat, letter: Byte): Byte
    requires n < 16 && (letter == 'a' || letter == 'A')
  {
    if n < 10 then ByteOf('0' as int + n) else ByteOf(letter as int + n - 10)
  }

  function Hex2(b: Byte, letter: Byte): Bytes
    requires letter == 'a' || letter == 'A'
  {
    [Digit(b as int / 16, letter), Digit(b as int % 16, letter)]
  }

  // ---------------------------------------------------------------------------
  // Spelling byte by byte
  // ---------------------------------------------------------------------------

  function Each(s: Bytes, spell: Byte -> Bytes): Bytes {
    if s == [] then [] else spell(s[0]) + Each(s[1..], spell)
  }

  lemma {:induction false} EachSnoc(s: Bytes, b: Byte, spell: Byte -> Bytes)
    ensures Each(s + [b], spell) == Each(s, spell) + spell(b)
  {
    if s == [] {
      assert [b][1..] == [] && s + [b] == [b];
    } else {
      assert (s + [b])[1..] == s[1..] + [b];
      EachSnoc(s[1..], b, spell);
    }
  }

  predicate Unreserved(b: Byte) {
    'A' <= b <= 'Z' || 'a' <= b <= 'z' || '0' <= b <= '9' || b == '-' || b == '_' || b == '.' || b == '~'
  }

  function PercentUpper(b: Byte): Bytes {
    if Unreserved(b) then [b] else ['%'] + Hex2(b, 'A')
  }

  function PercentLower(b: Byte): Bytes {
    if Unreserved(b) then [b] else ['%'] + Hex2(b, 'a')
  }

  function HexUpper(b: Byte): Bytes {
    Hex2(b, 'A')
  }

  function HexLower(b: Byte): Bytes {
    Hex2(b, 'a')
  }

  function UnicodeEscape(b: Byte): Bytes {
    ['\\', 'u', '0', '0'] + Hex2(b, 'a')
  }

  function Decimal(n: nat): Bytes
    requires n < 1000
  {
    (if n >= 100 then [Digit(n / 100, 'a')] else []) +
    (if n >= 10 then [Digit(n / 10 % 10, 'a')] else []) +
    [Digit(n % 10, 'a')]
  }

  function HtmlDecimal(b: Byte): Bytes {
    ['&', '#'] + Decimal(b as int) + [';']
  }

  function HtmlHex(b: Byte): Bytes {
    ['&', '#', 'x'] + Hex2(b, 'A') + [';']
  }

  /** The escapes of the JSON printer inside a string. */
  function JsonEscape(b: Byte): Bytes {
    if b == '\"' then ['\\', '\"']
    else if b == '\\' then ['\\', '\\']
    else if b as int == 8 then ['\\', 'b']
    else if b as int == 12 then ['\\', 'f']
    else if b == '\n' then ['\\', 'n']
    else if b == '\r' then ['\\', 'r']
    else if b == '\t' then ['\\', 't']
    else if b as int < 32 then UnicodeEscape(b)
    else [b]
  }

  method UrlEncode(input: Bytes) returns (encoded: Bytes)
    ensures encoded == Each(input, PercentUpper)
  {
    encoded := [];
    for i := 0 to |input|
      invariant encoded == Each(input[..i], PercentUpper)
    {
      EachSnoc(input[..i], input[i], PercentUpper);
      assert input[..i + 1] == input[..i] + [input[i]];
      if Unreserved(input[i]) {
        encoded := encoded + [input[i]];
      } else {
        encoded := encoded + (['%'] + Hex2(input[i], 'A'));
      }
    }
    assert input[..|input|] == input;
  }

  method UrlEncodeLower(input: Bytes) returns (encoded: Bytes)
    ensures encoded == Each(input, PercentLower)
  {
    encoded := [];
    for i := 0 to |input|
      invariant encoded == Each(input[..i], PercentLower)
    {
      EachSnoc(input[..i], input[i], PercentLower);
      assert input[..i + 1] == input[..i] + [input[i]];
      if Unreserved(input[i]) {
        encoded := encoded + [input[i]];
      } else {
        encoded := encoded + (['%'] + Hex2(input[i], 'a'));
      }
    }
    assert input[..|input|] == input;
  }

  // ---------------------------------------------------------------------------
  // Reading back
  // ---------------------------------------------------------------------------

  /** What the front of a text stands for, and how much of it was read. */
  type Reader = Bytes -> Option<(Bytes, nat)>

  function Read(t: Bytes, read: Reader): Option<Bytes> {
    if t == [] then Some([])
    else match read(t)
      case None => None
      case Some((out, n)) =>
        if n == 0 || n > |t| then None
        else match Read(t[n..], read)
          case None => None
          case Some(rest) => Some(out + rest)
  }

  /** The reader takes back one spelling, whatever follows. */
  ghost predicate ReadsAs(read: Reader, spelling: Bytes, meaning: Bytes) {
    spelling != [] && forall rest: Bytes :: read(spelling + rest) == Some((meaning, |spelling|))
  }

  lemma {:induction false} ReadEach(s: Bytes, spell: Byte -> Bytes, mean: Byte -> Bytes, read: Reader)
    requires forall b :: ReadsAs(read, spell(b), mean(b))
    ensures Read(Each(s, spell), read) == Some(Each(s, mean))
  {
    if s != [] {
      assert ReadsAs(read, spell(s[0]), mean(s[0]));
      var spelling, rest := spell(s[0]), Each(s[1..], spell);
      assert (spelling + rest)[|spelling|..] == rest;
      ReadEach(s[1..], spell, mean, read);
    }
  }

  function Itself(b: Byte): Bytes {
    [b]
  }

  lemma {:induction false} EachItself(s: Bytes)
    ensures Each(s, Itself) == s
  {
    if s != [] {
      EachItself(s[1..]);
    }
  }

  function HexValue(c: Byte): Option<nat> {
    if '0' <= c <= '9' then Some(c as int - '0' as int)
    else if 'a' <= c <= 'f' then Some(c as int - 'a' as int + 10)
    else if 'A' <= c <= 'F' then Some(c as int - 'A' as int + 10)
    else None
  }

  /** Two hexadecimal digits, of either case, at place `i`. */
  function HexPair(t: Bytes, i: nat): Option<nat>
    requires i + 2 <= |t|
  {
    var high, low := HexValue(t[i]), HexValue(t[i + 1]);
    if high.Some? && low.Some? then Some(16 * high.value + low.value) else None
  }

  lemma Hex2Reads(b: Byte, letter: Byte, before: Bytes, after: Bytes)
    requires letter == 'a' || letter == 'A'
    ensures HexPair(before + Hex2(b, letter) + after, |before|) == Some(b as int)
  {
    var t := before + Hex2(b, letter) + after;
    assert t[|before|] == Hex2(b, letter)[0] && t[|before| + 1] == Hex2(b, letter)[1];
  }

  /** Percent-decoding, section 2.1 of RFC 3986. */
  function ReadPercent(t: Bytes): Option<(Bytes, nat)> {
    if t == [] then None
    else if t[0] != '%' then Some(([t[0]], 1))
    else if |t| < 3 then None
    else match HexPair(t, 1)
      case None => None
      case Some(n) => if n < 256 then Some(([ByteOf(n)], 3)) else None
  }

  function ReadHex(t: Bytes): Option<(Bytes, nat)> {
    if |t| < 2 then None
    else match HexPair(t, 0)
      case None => None
      case Some(n) => if n < 256 then Some(([ByteOf(n)], 2)) else None
  }

  /** The UTF-8 bytes of a code point of the first plane, section 3 of RFC 3629. */
  function Utf8(point: nat): Bytes
    requires point < 0x10000
  {
    if point < 0x80 then [ByteOf(point)]
    else if point < 0x800 then [ByteOf(0xC0 + point / 64), ByteOf(0x80 + point % 64)]
    else [ByteOf(0xE0 + point / 4096), ByteOf(0x80 + point / 64 % 64), ByteOf(0x80 + point % 64)]
  }

  /** String contents, section 7 of RFC 8259; escapes of surrogates are not read. */
  function ReadJson(t: Bytes): Option<(Bytes, nat)> {
    if t == [] || t[0] == '\"' || t[0] as int < 32 then None
    else if t[0] != '\\' then Some(([t[0]], 1))
    else if |t| < 2 then None
    else if t[1] == 'u' then ReadUnicodeEscape(t)
    else if t[1] == '\"' || t[1] == '\\' || t[1] == '/' then Some(([t[1]], 2))
    else if t[1] == 'b' then Some(([ByteOf(8)], 2))
    else if t[1] == 'f' then Some(([ByteOf(12)], 2))
    else if t[1] == 'n' then Some(([ByteOf(10)], 2))
    else if t[1] == 'r' then Some(([ByteOf(13)], 2))
    else if t[1] == 't' then Some(([ByteOf(9)], 2))
    else None
  }

  function ReadUnicodeEscape(t: Bytes): Option<(Bytes, nat)> {
    if |t| < 6 then None
    else
      var high, low := HexPair(t, 2), HexPair(t, 4);
      if high.None? || low.None? then None
      else
        var point := 256 * high.value + low.value;
        if point >= 0x10000 || 0xD800 <= point < 0xE000 then None else Some((Utf8(point), 6))
  }

  /** Digits of a base up to a semicolon: the number and the place after it. */
  function ReadNumber(t: Bytes, i: nat, base: nat, sofar: nat): Option<(nat, nat)>
    requires i <= |t|
    decreases |t| - i
  {
    if i == |t| then None
    else if t[i] == ';' then Some((sofar, i + 1))
    else match HexValue(t[i])
      case None => None
      case Some(d) => if d < base then ReadNumber(t, i + 1, base, base * sofar + d) else None
  }

  /** Text with numeric character references, of the first plane. */
  function ReadHtml(t: Bytes): Option<(Bytes, nat)> {
    if t == [] then None
    else if !(['&', '#'] <= t) then Some(([t[0]], 1))
    else
      var number := if |t| > 2 && t[2] == 'x' then ReadNumber(t, 3, 16, 0) else ReadNumber(t, 2, 10, 0);
      if number.None? || number.value.0 >= 0x10000 then None
      else Some((Utf8(number.value.0), number.value.1))
  }

  lemma PercentReads(b: Byte)
    ensures ReadsAs(ReadPercent, PercentUpper(b), [b]) && ReadsAs(ReadPercent, PercentLower(b), [b])
  {
    forall rest: Bytes
      ensures ReadPercent(PercentUpper(b) + rest) == Some(([b], |PercentUpper(b)|))
      ensures ReadPercent(PercentLower(b) + rest) == Some(([b], |PercentLower(b)|))
    {
      Hex2Reads(b, 'A', ['%'], rest);
      Hex2Reads(b, 'a', ['%'], rest);
    }
  }

  lemma HexReads(b: Byte)
    ensures ReadsAs(ReadHex, HexUpper(b), [b]) && ReadsAs(ReadHex, HexLower(b), [b])
  {
    forall rest: Bytes
      ensures ReadHex(HexUpper(b) + rest) == Some(([b], 2)) && ReadHex(HexLower(b) + rest) == Some(([b], 2))
    {
      Hex2Reads(b, 'A', [], rest);
      Hex2Reads(b, 'a', [], rest);
      assert [] + HexUpper(b) + rest == HexUpper(b) + rest;
      assert [] + HexLower(b) + rest == HexLower(b) + rest;
    }
  }

  lemma JsonReads(b: Byte)
    ensures ReadsAs(ReadJson, JsonEscape(b), [b])
  {
    forall rest: Bytes
      ensures ReadJson(JsonEscape(b) + rest) == Some(([b], |JsonEscape(b)|))
    {
      if JsonEscape(b) == UnicodeEscape(b) {
        UnicodeReads(b, rest);
      }
    }
  }

  lemma UnicodeReads(b: Byte, rest: Bytes)
    ensures ReadJson(UnicodeEscape(b) + rest) == Some((Utf8(b as int), 6))
  {
    var t := UnicodeEscape(b) + rest;
    assert t == ['\\', 'u', '0', '0'] + Hex2(b, 'a') + rest;
    Hex2Reads(b, 'a', ['\\', 'u', '0', '0'], rest);
    assert HexPair(t, 2) == Some(0);
  }

  lemma HtmlHexReads(b: Byte, rest: Bytes)
    ensures ReadHtml(HtmlHex(b) + rest) == Some((Utf8(b as int), |HtmlHex(b)|))
  {
    var t := HtmlHex(b) + rest;
    assert t[3] == Hex2(b, 'A')[0] && t[4] == Hex2(b, 'A')[1] && t[5] == ';';
    assert ReadNumber(t, 5, 16, b as int) == Some((b as int, 6));
    assert ReadNumber(t, 4, 16, b as int / 16) == Some((b as int, 6));
  }

  lemma HtmlDecimalReads(b: Byte, rest: Bytes)
    ensures ReadHtml(HtmlDecimal(b) + rest) == Some((Utf8(b as int), |HtmlDecimal(b)|))
  {
    var t, n, size := HtmlDecimal(b) + rest, b as int, |HtmlDecimal(b)|;
    assert t[size - 1] == ';' && t[size - 2] == Digit(n % 10, 'a');
    assert ReadNumber(t, size - 1, 10, n) == Some((n, size));
    assert ReadNumber(t, size - 2, 10, n / 10) == Some((n, size));
    if n >= 10 {
      assert t[size - 3] == Digit(n / 10 % 10, 'a');
      assert ReadNumber(t, size - 3, 10, n / 100) == Some((n, size));
    }
    if n >= 100 {
      assert t[size - 4] == Digit(n / 100, 'a');
      assert ReadNumber(t, size - 4, 10, 0) == Some((n, size));
    }
    assert t[2] != 'x';
  }

  // ---------------------------------------------------------------------------
  // The readers take every spelling back
  // ---------------------------------------------------------------------------

  lemma PercentRoundTrip(s: Bytes)
    ensures Read(Each(s, PercentUpper), ReadPercent) == Some(s)
    ensures Read(Each(s, PercentLower), ReadPercent) == Some(s)
  {
    forall b
      ensures ReadsAs(ReadPercent, PercentUpper(b), Itself(b)) && ReadsAs(ReadPercent, PercentLower(b), Itself(b))
    {
      PercentReads(b);
    }
    ReadEach(s, PercentUpper, Itself, ReadPercent);
    ReadEach(s, PercentLower, Itself, ReadPercent);
    EachItself(s);
  }

  lemma HexRoundTrip(s: Bytes)
    ensures Read(Each(s, HexUpper), ReadHex) == Some(s) && Read(Each(s, HexLower), ReadHex) == Some(s)
  {
    forall b
      ensures ReadsAs(ReadHex, HexUpper(b), Itself(b)) && ReadsAs(ReadHex, HexLower(b), Itself(b))
    {
      HexReads(b);
    }
    ReadEach(s, HexUpper, Itself, ReadHex);
    ReadEach(s, HexLower, Itself, ReadHex);
    EachItself(s);
  }

  lemma JsonRoundTrip(s: Bytes)
    ensures Read(Each(s, JsonEscape), ReadJson) == Some(s)
  {
    forall b
      ensures ReadsAs(ReadJson, JsonEscape(b), Itself(b))
    {
      JsonReads(b);
    }
    ReadEach(s, JsonEscape, Itself, ReadJson);
    EachItself(s);
  }

  /** The UTF-8 bytes of the code point a byte would be on its own. */
  function AsPoint(b: Byte): Bytes {
    Utf8(b as int)
  }

  ghost predicate Ascii(s: Bytes) {
    forall i :: 0 <= i < |s| ==> s[i] as int < 0x80
  }

  lemma {:induction false} AsPoints(s: Bytes)
    ensures |Each(s, AsPoint)| >= |s|
    ensures Each(s, AsPoint) == s <==> Ascii(s)
    ensures |Each(s, AsPoint)| == |s| ==> Ascii(s)
  {
    if s != [] {
      AsPoints(s[1..]);
      if Ascii(s) {
        assert Ascii(s[1..]);
      }
      if Ascii(s[1..]) && s[0] as int < 0x80 {
        forall i | 0 <= i < |s|
          ensures s[i] as int < 0x80
        {
          assert i > 0 ==> s[i] == s[1..][i - 1];
        }
      }
    }
  }

  /**
   * The numeric escapes name each byte as if it were a code point: a JSON or HTML reader gets the
   * secret back exactly when the secret is ASCII.
   */
  lemma EscapesReadBackIffAscii(s: Bytes)
    ensures Read(Each(s, UnicodeEscape), ReadJson) == Some(s) <==> Ascii(s)
    ensures Read(Each(s, HtmlDecimal), ReadHtml) == Some(s) <==> Ascii(s)
    ensures Read(Each(s, HtmlHex), ReadHtml) == Some(s) <==> Ascii(s)
  {
    forall b
      ensures ReadsAs(ReadJson, UnicodeEscape(b), AsPoint(b))
      ensures ReadsAs(ReadHtml, HtmlDecimal(b), AsPoint(b)) && ReadsAs(ReadHtml, HtmlHex(b), AsPoint(b))
    {
      EscapesRead(b);
    }
    ReadEach(s, UnicodeEscape, AsPoint, ReadJson);
    ReadEach(s, HtmlDecimal, AsPoint, ReadHtml);
    ReadEach(s, HtmlHex, AsPoint, ReadHtml);
    AsPoints(s);
  }

  lemma EscapesRead(b: Byte)
    ensures ReadsAs(ReadJson, UnicodeEscape(b), AsPoint(b))
    ensures ReadsAs(ReadHtml, HtmlDecimal(b), AsPoint(b)) && ReadsAs(ReadHtml, HtmlHex(b), AsPoint(b))
  {
    forall rest: Bytes
      ensures ReadJson(UnicodeEscape(b) + rest) == Some((AsPoint(b), |UnicodeEscape(b)|))
      ensures ReadHtml(HtmlDecimal(b) + rest) == Some((AsPoint(b), |HtmlDecimal(b)|))
      ensures ReadHtml(HtmlHex(b) + rest) == Some((AsPoint(b), |HtmlHex(b)|))
    {
      UnicodeReads(b, rest);
      HtmlDecimalReads(b, rest);
      HtmlHexReads(b, rest);
    }
  }
}
