/**
 * The spellings of a secret byte for byte: which bytes are left alone, which digits are used, and
 * that no other text of the same shape reads back as the secret.
 */
module Spellings {
  import opened Common
  import opened Masking
  import opened Encodings
  import opened Scrub
  import opened ScrubLimits
  import Base64

  const UPPER: string := "0123456789ABCDEF"
  const LOWER: string := "0123456789abcdef"

  lemma DigitTable(n: nat)
    requires n < 16
    ensures Digit(n, 'A') == UPPER[n] && Digit(n, 'a') == LOWER[n]
  {
    if n < 8 {
      assert n == 0 || n == 1 || n == 2 || n == 3 || n == 4 || n == 5 || n == 6 || n == 7;
    } else {
      assert n == 8 || n == 9 || n == 10 || n == 11 || n == 12 || n == 13 || n == 14 || n == 15;
    }
  }

  /** The place of a digit in its table. */
  lemma DigitPlace(c: Byte, n: nat)
    requires HexValue(c) == Some(n)
    ensures n < 16 && (c in UPPER ==> c == UPPER[n]) && (c in LOWER ==> c == LOWER[n])
  {
    if c in UPPER {
      var i :| 0 <= i < 16 && UPPER[i] == c;
      DigitTable(i);
    }
    if c in LOWER {
      var i :| 0 <= i < 16 && LOWER[i] == c;
      DigitTable(i);
    }
  }

  // ---------------------------------------------------------------------------
  // Percent spellings
  // ---------------------------------------------------------------------------

  /** Letters, digits and four signs: the unreserved characters of section 2.3 of RFC 3986. */
  predicate LeftAlone(b: char) {
    'A' <= b <= 'Z' || 'a' <= b <= 'z' || '0' <= b <= '9' || b in "-_.~"
  }

  /** Two digits from the table for a byte that is not left alone. */
  predicate Escaped(t: Bytes, digits: string) {
    && |t| >= 3 && t[0] == '%' && t[1] in digits && t[2] in digits
    && HexPair(t, 1) != None && HexPair(t, 1).value < 256 && !LeftAlone(HexPair(t, 1).value as char)
  }

  /** A text of bytes left alone and of escapes of all others. */
  predicate PercentShaped(t: Bytes, digits: string) {
    t == [] || (LeftAlone(t[0]) && PercentShaped(t[1..], digits)) || (Escaped(t, digits) && PercentShaped(t[3..], digits))
  }

  function DigitsOf(upper: bool): string {
    if upper then UPPER else LOWER
  }

  function PercentOf(upper: bool): Byte -> Bytes {
    if upper then PercentUpper else PercentLower
  }

  lemma OnePercent(b: Byte, rest: Bytes, upper: bool)
    ensures var t := PercentOf(upper)(b) + rest;
            if LeftAlone(b) then t == [b] + rest
            else Escaped(t, DigitsOf(upper)) && t[3..] == rest && HexPair(t, 1) == Some(b as int)
  {
    if !LeftAlone(b) {
      var letter: Byte := if upper then 'A' else 'a';
      var t := PercentOf(upper)(b) + rest;
      assert t == ['%'] + Hex2(b, letter) + rest;
      Hex2Reads(b, letter, ['%'], rest);
      DigitTable(b as int / 16);
      DigitTable(b as int % 16);
      assert t[1] == DigitsOf(upper)[b as int / 16] && t[2] == DigitsOf(upper)[b as int % 16];
    }
  }

  /** The output of the percent encoders has that shape, with digits of one case. */
  lemma {:induction false} PercentIsShaped(s: Bytes, upper: bool)
    ensures PercentShaped(Each(s, PercentOf(upper)), DigitsOf(upper))
  {
    if s != [] {
      PercentIsShaped(s[1..], upper);
      OnePercent(s[0], Each(s[1..], PercentOf(upper)), upper);
    }
  }

  /** An escape of a byte is spelled one way only. */
  lemma EscapeUnique(t: Bytes, b: Byte, upper: bool)
    requires Escaped(t, DigitsOf(upper)) && HexPair(t, 1) == Some(b as int)
    ensures t == PercentOf(upper)(b) + t[3..]
  {
    var high, low := HexValue(t[1]).value, HexValue(t[2]).value;
    DigitPlace(t[1], high);
    DigitPlace(t[2], low);
    DigitTable(high);
    DigitTable(low);
    assert b as int / 16 == high && b as int % 16 == low;
    OnePercent(b, t[3..], upper);
    assert t == [t[0], t[1], t[2]] + t[3..];
  }

  /** The only text of that shape that percent-decodes to the input is the output. */
  lemma {:induction false} PercentUnique(t: Bytes, s: Bytes, upper: bool)
    requires PercentShaped(t, DigitsOf(upper)) && Read(t, ReadPercent) == Some(s)
    ensures t == Each(s, PercentOf(upper))
    decreases |t|
  {
    if t != [] {
      if t[0] == '%' {
        var b := ByteOf(HexPair(t, 1).value);
        assert s == [b] + s[1..];
        PercentUnique(t[3..], s[1..], upper);
        EscapeUnique(t, b, upper);
      } else {
        assert s == [t[0]] + s[1..];
        PercentUnique(t[1..], s[1..], upper);
        OnePercent(t[0], t[1..], upper);
        assert t == [t[0]] + t[1..];
      }
    }
  }

  // ---------------------------------------------------------------------------
  // Spellings of fixed width
  // ---------------------------------------------------------------------------

  lemma {:induction false} EachWidth(s: Bytes, spell: Byte -> Bytes, width: nat)
    requires forall b :: |spell(b)| == width
    ensures |Each(s, spell)| == width * |s|
  {
    if s != [] {
      EachWidth(s[1..], spell, width);
      assert width * |s| == width + width * |s[1..]|;
    }
  }

  lemma Middle(a: Bytes, b: Bytes, c: Bytes)
    ensures (a + b + c)[|a|..|a| + |b|] == b
  {
  }

  lemma EachFixed(s: Bytes, spell: Byte -> Bytes, width: nat, i: nat)
    requires (forall b :: |spell(b)| == width) && i < |s|
    ensures |Each(s, spell)| == width * |s| && 0 <= width * i <= width * i + width <= width * |s|
    ensures Each(s, spell)[width * i..width * i + width] == spell(s[i])
  {
    EachWidth(s, spell, width);
    EachWidth(s[..i], spell, width);
    EachAt(s, spell, i);
    Middle(Each(s[..i], spell), spell(s[i]), Each(s[i + 1..], spell));
  }

  /** The hexadecimal spellings: two digits of one case for each byte. */
  lemma HexSpelled(s: Bytes, i: nat)
    requires i < |s|
    ensures |Each(s, HexLower)| == |Each(s, HexUpper)| == 2 * |s|
    ensures Each(s, HexLower)[2 * i..2 * i + 2] == [LOWER[s[i] as int / 16], LOWER[s[i] as int % 16]]
    ensures Each(s, HexUpper)[2 * i..2 * i + 2] == [UPPER[s[i] as int / 16], UPPER[s[i] as int % 16]]
  {
    EachFixed(s, HexLower, 2, i);
    EachFixed(s, HexUpper, 2, i);
    DigitTable(s[i] as int / 16);
    DigitTable(s[i] as int % 16);
  }

  /** The JSON unicode spelling: backslash, u, two zeros and two lower-case digits for each byte. */
  lemma UnicodeSpelled(s: Bytes, i: nat)
    requires i < |s|
    ensures |Each(s, UnicodeEscape)| == 6 * |s|
    ensures Each(s, UnicodeEscape)[6 * i..6 * i + 6] == ['\\', 'u', '0', '0', LOWER[s[i] as int / 16], LOWER[s[i] as int % 16]]
  {
    EachFixed(s, UnicodeEscape, 6, i);
    DigitTable(s[i] as int / 16);
    DigitTable(s[i] as int % 16);
  }

  /** The hexadecimal HTML spelling: a reference with two upper-case digits for each byte. */
  lemma HtmlHexSpelled(s: Bytes, i: nat)
    requires i < |s|
    ensures |Each(s, HtmlHex)| == 6 * |s|
    ensures Each(s, HtmlHex)[6 * i..6 * i + 6] == ['&', '#', 'x', UPPER[s[i] as int / 16], UPPER[s[i] as int % 16], ';']
  {
    EachFixed(s, HtmlHex, 6, i);
    DigitTable(s[i] as int / 16);
    DigitTable(s[i] as int % 16);
  }

  // ---------------------------------------------------------------------------
  // Spellings of varying width
  // ---------------------------------------------------------------------------

  /** Each byte is spelled on its own, between those before and those after it. */
  lemma {:induction false} EachAt(s: Bytes, spell: Byte -> Bytes, i: nat)
    requires i < |s|
    ensures Each(s, spell) == Each(s[..i], spell) + spell(s[i]) + Each(s[i + 1..], spell)
  {
    if i == 0 {
      assert s[..0] == [];
    } else {
      EachAt(s[1..], spell, i - 1);
      assert s[1..][..i - 1] == s[..i][1..] && s[1..][i..] == s[i + 1..];
      assert spell(s[0]) + (Each(s[..i][1..], spell) + spell(s[i]) + Each(s[i + 1..], spell)) ==
             spell(s[0]) + Each(s[..i][1..], spell) + spell(s[i]) + Each(s[i + 1..], spell);
    }
  }

  function DecimalValue(t: Bytes): int {
    if t == [] then 0 else 10 * DecimalValue(t[..|t| - 1]) + (t[|t| - 1] as int - '0' as int)
  }

  /** Digits without a leading zero. */
  predicate Canonical(d: Bytes) {
    d != [] && (forall i :: 0 <= i < |d| ==> '0' <= d[i] <= '9') && (|d| > 1 ==> d[0] != '0')
  }

  lemma OneMore(d: Bytes, digit: Byte)
    ensures DecimalValue(d + [digit]) == 10 * DecimalValue(d) + (digit as int - '0' as int)
  {
    assert (d + [digit])[..|d|] == d;
  }

  lemma TwoDigits(tens: nat, ones: nat)
    requires 0 < tens < 10 && ones < 10
    ensures var d := [Digit(tens, 'a')] + [Digit(ones, 'a')]; Canonical(d) && DecimalValue(d) == 10 * tens + ones
  {
    OneMore([], Digit(tens, 'a'));
    OneMore([Digit(tens, 'a')], Digit(ones, 'a'));
    assert [] + [Digit(tens, 'a')] == [Digit(tens, 'a')];
  }

  lemma ThreeDigits(hundreds: nat, tens: nat, ones: nat)
    requires 0 < hundreds < 10 && tens < 10 && ones < 10
    ensures var d := [Digit(hundreds, 'a')] + [Digit(tens, 'a')] + [Digit(ones, 'a')];
            Canonical(d) && DecimalValue(d) == 100 * hundreds + 10 * tens + ones
  {
    OneMore([], Digit(hundreds, 'a'));
    OneMore([Digit(hundreds, 'a')], Digit(tens, 'a'));
    OneMore([Digit(hundreds, 'a')] + [Digit(tens, 'a')], Digit(ones, 'a'));
    assert [] + [Digit(hundreds, 'a')] == [Digit(hundreds, 'a')];
  }

  lemma DecimalSpelled(n: nat)
    requires n < 256
    ensures Canonical(Decimal(n)) && DecimalValue(Decimal(n)) == n
  {
    if n < 10 {
      OneMore([], Digit(n, 'a'));
      assert Decimal(n) == [] + [Digit(n, 'a')];
    } else if n < 100 {
      TwoDigits(n / 10, n % 10);
      assert Decimal(n) == [Digit(n / 10, 'a')] + [Digit(n % 10, 'a')];
    } else {
      ThreeDigits(n / 100, n / 10 % 10, n % 10);
      assert Decimal(n) == [Digit(n / 100, 'a')] + [Digit(n / 10 % 10, 'a')] + [Digit(n % 10, 'a')];
    }
  }

  /** The decimal HTML spelling of a byte: a reference with the byte's number, without leading zeros. */
  lemma HtmlDecimalSpelled(b: Byte)
    ensures var t := HtmlDecimal(b);
            && |t| > 3 && t[0] == '&' && t[1] == '#' && t[|t| - 1] == ';'
            && Canonical(t[2..|t| - 1]) && DecimalValue(t[2..|t| - 1]) == b as int
  {
    var t := HtmlDecimal(b);
    DecimalSpelled(b as int);
    assert t[2..|t| - 1] == Decimal(b as int);
  }

  /**
   * The JSON spelling of a byte: printable bytes but quote and backslash stand for themselves, seven
   * bytes have an escape of two, the other control characters one of six with lower-case digits.
   */
  lemma JsonSpelled(b: Byte)
    ensures JsonEscape(b) == [b] <==> b as int >= 32 && b != '\"' && b != '\\'
    ensures |JsonEscape(b)| == 2 <==> b as int in {8, 9, 10, 12, 13, 34, 92}
    ensures |JsonEscape(b)| == 1 || |JsonEscape(b)| == 2 ||
            JsonEscape(b) == ['\\', 'u', '0', '0', LOWER[b as int / 16], LOWER[b as int % 16]]
    ensures |JsonEscape(b)| == 1 ==> JsonEscape(b) == [b]
  {
    DigitTable(b as int / 16);
    DigitTable(b as int % 16);
  }

  /** The base64 alphabets, tables 1 and 2 of RFC 4648. */
  lemma AlphabetTable(x: Base64.Sextet)
    ensures x < 26 ==> Base64.Letter(x, '+', '/') == Base64.Letter(x, '-', '_') == "ABCDEFGHIJKLMNOPQRSTUVWXYZ"[x]
    ensures 26 <= x < 52 ==> Base64.Letter(x, '+', '/') == Base64.Letter(x, '-', '_') == "abcdefghijklmnopqrstuvwxyz"[x - 26]
    ensures 52 <= x < 62 ==> Base64.Letter(x, '+', '/') == Base64.Letter(x, '-', '_') == "0123456789"[x - 52]
    ensures x == 62 ==> Base64.Letter(x, '+', '/') == '+' && Base64.Letter(x, '-', '_') == '-'
    ensures x == 63 ==> Base64.Letter(x, '+', '/') == '/' && Base64.Letter(x, '-', '_') == '_'
  {
  }

  // ---------------------------------------------------------------------------
  // What a reader of the response cannot find
  // ---------------------------------------------------------------------------

  predicate AllIn(t: Bytes, digits: string) {
    forall i :: 0 <= i < |t| ==> t[i] in digits
  }

  function HexOf(upper: bool): Byte -> Bytes {
    if upper then HexUpper else HexLower
  }

  lemma PairUnique(t: Bytes, b: Byte, upper: bool)
    requires |t| >= 2 && t[0] in DigitsOf(upper) && t[1] in DigitsOf(upper) && HexPair(t, 0) == Some(b as int)
    ensures t == HexOf(upper)(b) + t[2..]
  {
    var high, low := HexValue(t[0]).value, HexValue(t[1]).value;
    DigitPlace(t[0], high);
    DigitPlace(t[1], low);
    DigitTable(high);
    DigitTable(low);
    assert b as int / 16 == high && b as int % 16 == low;
    assert t == [t[0], t[1]] + t[2..];
  }

  /** The only digits of one case that read back as the input are the output. */
  lemma {:induction false} HexUnique(t: Bytes, s: Bytes, upper: bool)
    requires AllIn(t, DigitsOf(upper)) && Read(t, ReadHex) == Some(s)
    ensures t == Each(s, HexOf(upper))
    decreases |t|
  {
    if t != [] {
      var b := ByteOf(HexPair(t, 0).value);
      assert s == [b] + s[1..];
      HexUnique(t[2..], s[1..], upper);
      PairUnique(t, b, upper);
    }
  }

  /** The text is a percent spelling of the secret, by its shape and what it decodes to. */
  ghost predicate PercentFor(t: Bytes, secret: Bytes) {
    (PercentShaped(t, UPPER) || PercentShaped(t, LOWER)) && Read(t, ReadPercent) == Some(secret)
  }

  /**
   * Whatever the secret, no response holds a text of percent shape that decodes to it, other than the
   * secret itself, nor one of twice that shape, nor lower-case digits that decode to it.
   */
  lemma ReadableTextsNeverSurvive(body: Bytes, secrets: seq<Bytes>, secret: Bytes, t: Bytes)
    requires secret in secrets && secret != []
    requires
      || (t != secret && PercentFor(t, secret))
      || (t != secret && PercentShaped(t, UPPER) && exists u :: Read(t, ReadPercent) == Some(u) && PercentShaped(u, UPPER)
                                                              && Read(u, ReadPercent) == Some(secret))
      || (AllIn(t, LOWER) && Read(t, ReadHex) == Some(secret))
    ensures !Contains(Scrubbed(body, secrets), t)
  {
    if t != secret && PercentFor(t, secret) {
      if PercentShaped(t, UPPER) {
        PercentUnique(t, secret, true);
      } else {
        PercentUnique(t, secret, false);
      }
    } else if AllIn(t, LOWER) && Read(t, ReadHex) == Some(secret) {
      HexUnique(t, secret, false);
    } else {
      var u :| Read(t, ReadPercent) == Some(u) && PercentShaped(u, UPPER) && Read(u, ReadPercent) == Some(secret);
      PercentUnique(u, secret, true);
      PercentUnique(t, u, true);
    }
    NumericSpellingsNeverSurvive(body, secrets, secret, t);
  }

  /** Nor, unless they are part of the mask's word, upper-case digits that decode to it. */
  lemma UpperHexNeverSurvives(body: Bytes, secrets: seq<Bytes>, secret: Bytes, t: Bytes)
    requires secret in secrets && secret != [] && AllIn(t, UPPER) && Read(t, ReadHex) == Some(secret)
    requires !Contains("CREDENTIAL", t)
    ensures !Contains(Scrubbed(body, secrets), t)
  {
    HexUnique(t, secret, true);
    EachAvoids(secret, HexUpper, '[');
    EachAvoids(secret, HexUpper, ']');
    PlainTextsDoNotClash(t);
    NoSpellingSurvives(body, secrets, secret, t);
  }

  // ---------------------------------------------------------------------------
  // The order of masking
  // ---------------------------------------------------------------------------

  lemma FourInOrder(a: Bytes, b: Bytes, c: Bytes, d: Bytes)
    ensures [a] + [b] + [c] + [d] == [a, b, c, d]
  {
  }

  /** Where the spellings of a group differ from those before, they are masked in this order. */
  lemma PlainInOrder(value: Bytes, url: Bytes, lower: Bytes, json: Bytes)
    requires url == Each(value, PercentUpper) && lower == Each(value, PercentLower) && json == Each(value, JsonEscape)
    requires url != value && lower != value && lower != url && json != value
    ensures PlainForms(value) == [value, url, lower, json]
  {
    FourInOrder(value, url, lower, json);
  }

  lemma RadixInOrder(value: Bytes, hex: Bytes, upper: Bytes, base64: Bytes, base64url: Bytes)
    requires hex == Each(value, HexLower) && upper == Each(value, HexUpper)
    requires base64 == Base64.Standard(value) && base64url == Base64.UrlSafe(value)
    requires upper != hex && base64 != value && base64url != value && base64url != base64
    ensures RadixForms(value) == [hex, upper, base64, base64url]
  {
    FourInOrder(hex, upper, base64, base64url);
  }

  lemma EscapesInOrder(value: Bytes, unicode: Bytes, twice: Bytes, decimal: Bytes, hex: Bytes)
    requires unicode == Each(value, UnicodeEscape) && twice == Each(Each(value, PercentUpper), PercentUpper)
    requires decimal == Each(value, HtmlDecimal) && hex == Each(value, HtmlHex)
    requires unicode != value && twice != Each(value, PercentUpper) && hex != decimal
    ensures EscapeForms(value) == [unicode, twice, decimal, hex]
  {
    FourInOrder(unicode, twice, decimal, hex);
  }

  /** The groups are masked one after the other. */
  lemma GroupsInOrder(value: Bytes)
    ensures |PlainForms(value)| + |RadixForms(value)| <= |Forms(value)|
    ensures Forms(value)[..|PlainForms(value)|] == PlainForms(value)
    ensures Forms(value)[|PlainForms(value)|..|PlainForms(value)| + |RadixForms(value)|] == RadixForms(value)
    ensures Forms(value)[|PlainForms(value)| + |RadixForms(value)|..] == EscapeForms(value)
  {
    Thirds(PlainForms(value), RadixForms(value), EscapeForms(value));
  }

  lemma Thirds(a: seq<Bytes>, b: seq<Bytes>, c: seq<Bytes>)
    ensures (a + b + c)[..|a|] == a && (a + b + c)[|a|..|a| + |b|] == b && (a + b + c)[|a| + |b|..] == c
  {
  }
}
