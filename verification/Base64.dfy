/** The base64 encoders of arbiter-credential/src/inject.rs, against sections 4 and 5 of RFC 4648. */
module Base64 {
  import opened Common
  import opened Masking
  import opened Encodings

  type Sextet = x: int | 0 <= x < 64

  // ---------------------------------------------------------------------------
  // The specification: the same bits in groups of six
  // ---------------------------------------------------------------------------

  function Sextets(s: Bytes): seq<Sextet> {
    if s == [] then []
    else
      var first, rest := s[0] as int, s[0] as int % 4 * 16;
      if |s| == 1 then [first / 4, rest]
      else
        var second, rest' := s[1] as int, s[1] as int % 16 * 4;
        if |s| == 2 then [first / 4, rest + second / 16, rest']
        else
          var third := s[2] as int;
          [first / 4, rest + second / 16, rest' + third / 64, third % 64] + Sextets(s[3..])
  }

  function Letter(x: Sextet, c62: Byte, c63: Byte): Byte {
    if x < 26 then ByteOf('A' as int + x)
    else if x < 52 then ByteOf('a' as int + x - 26)
    else if x < 62 then ByteOf('0' as int + x - 52)
    else if x == 62 then c62
    else c63
  }

  function Spell(xs: seq<Sextet>, c62: Byte, c63: Byte): Bytes {
    seq(|xs|, i requires 0 <= i < |xs| => Letter(xs[i], c62, c63))
  }

  function Padding(n: nat): Bytes {
    if n % 3 == 0 then [] else if n % 3 == 1 then ['=', '='] else ['=']
  }

  function Standard(s: Bytes): Bytes {
    Spell(Sextets(s), '+', '/') + Padding(|s|)
  }

  function UrlSafe(s: Bytes): Bytes {
    Spell(Sextets(s), '-', '_')
  }

  // ---------------------------------------------------------------------------
  // The encoders
  // ---------------------------------------------------------------------------

  lemma LowField(n: nat, high: nat, low: nat)
    requires n == 64 * high + low && low < 64
    ensures n % 64 == low
  {
  }

  /** The six-bit fields of three bytes put side by side in one number. */
  lemma TripleFields(b0: nat, b1: nat, b2: nat)
    requires b0 < 256 && b1 < 256 && b2 < 256
    ensures var triple := b0 * 0x10000 + b1 * 0x100 + b2;
            && triple / 0x40000 % 64 == b0 / 4
            && triple / 0x1000 % 64 == b0 % 4 * 16 + b1 / 16
            && triple / 64 % 64 == b1 % 16 * 4 + b2 / 64
            && triple % 64 == b2 % 64
  {
    var triple := b0 * 0x10000 + b1 * 0x100 + b2;
    LowField(triple / 64, 16 * b0 + b1 / 16, b1 % 16 * 4 + b2 / 64);
    LowField(triple / 0x1000, b0 / 4, b0 % 4 * 16 + b1 / 16);
    LowField(triple / 0x40000, 0, b0 / 4);
    LowField(triple, triple / 64, b2 % 64);
  }

  lemma StandardOfChunk(s: Bytes, b0: nat, b1: nat, b2: nat, triple: nat)
    requires 0 < |s| <= 3 && triple == b0 * 0x10000 + b1 * 0x100 + b2
    requires b0 == s[0] as int && b1 == (if |s| > 1 then s[1] as int else 0) && b2 == (if |s| > 2 then s[2] as int else 0)
    ensures Standard(s) ==
            [Letter(triple / 0x40000 % 64, '+', '/'), Letter(triple / 0x1000 % 64, '+', '/'),
             if |s| > 1 then Letter(triple / 64 % 64, '+', '/') else '=',
             if |s| > 2 then Letter(triple % 64, '+', '/') else '=']
  {
    TripleFields(b0, b1, b2);
    if |s| == 3 {
      assert s[3..] == [] && Sextets([]) == [];
    }
  }

  lemma StandardByChunks(s: Bytes)
    requires |s| > 3
    ensures Standard(s) == Standard(s[..3]) + Standard(s[3..])
  {
    assert s[..3][3..] == [] && Sextets(s) == Sextets(s[..3]) + Sextets(s[3..]);
    assert Padding(|s|) == Padding(|s[3..]|);
  }

  method EncodeChunk(chunk: Bytes) returns (piece: Bytes)
    requires 0 < |chunk| <= 3
    ensures piece == Standard(chunk)
  {
    var b0 := chunk[0] as int;
    var b1 := if |chunk| > 1 then chunk[1] as int else 0;
    var b2 := if |chunk| > 2 then chunk[2] as int else 0;
    var triple := b0 * 0x10000 + b1 * 0x100 + b2;
    StandardOfChunk(chunk, b0, b1, b2, triple);
    piece := [Letter(triple / 0x40000 % 64, '+', '/'), Letter(triple / 0x1000 % 64, '+', '/')];
    piece := piece + [if |chunk| > 1 then Letter(triple / 64 % 64, '+', '/') else '='];
    piece := piece + [if |chunk| > 2 then Letter(triple % 64, '+', '/') else '='];
  }

  method Base64EncodeValue(input: Bytes) returns (result: Bytes)
    ensures result == Standard(input)
  {
    result := [];
    var i := 0;
    ghost var todo := Standard(input);
    assert input[0..] == input;
    while i < |input|
      invariant i <= |input| && todo == Standard(input[i..]) && result + todo == Standard(input)
    {
      var chunk := input[i..if i + 3 <= |input| then i + 3 else |input|];
      NextChunk(input[i..], chunk);
      assert input[i..][|chunk|..] == input[i + |chunk|..];
      var piece := EncodeChunk(chunk);
      ghost var rest := Standard(input[i + |chunk|..]);
      Glue(result, piece, rest);
      result, todo := result + piece, rest;
      i := i + |chunk|;
    }
    assert input[i..] == [] && todo == [];
  }

  lemma Glue(a: Bytes, b: Bytes, c: Bytes)
    ensures a + (b + c) == (a + b) + c
  {
  }

  lemma NextChunk(s: Bytes, chunk: Bytes)
    requires s != [] && chunk == s[..if |s| >= 3 then 3 else |s|]
    ensures Standard(s) == Standard(chunk) + Standard(s[|chunk|..])
  {
    if |s| > 3 {
      StandardByChunks(s);
    } else {
      assert chunk == s && s[|chunk|..] == [];
    }
  }

  // ---------------------------------------------------------------------------
  // The URL-safe form
  // ---------------------------------------------------------------------------

  function TrimEnd(s: Bytes, c: Byte): Bytes {
    if s != [] && s[|s| - 1] == c then TrimEnd(s[..|s| - 1], c) else s
  }

  method Base64UrlEncodeValue(input: Bytes) returns (result: Bytes)
    ensures result == UrlSafe(input)
  {
    result := Base64EncodeValue(input);
    ToUrlAlphabet(Sextets(input), Padding(|input|));
    result := Replace(result, ['+'], ['-']);
    result := Replace(result, ['/'], ['_']);
    TrimPadding(UrlSafe(input), |input|);
    result := TrimEnd(result, '=');
  }

  function Swapped(s: Bytes, a: Byte, b: Byte): Bytes {
    seq(|s|, i requires 0 <= i < |s| => if s[i] == a then b else s[i])
  }

  lemma {:induction false} ReplaceOne(s: Bytes, a: Byte, b: Byte)
    ensures Replace(s, [a], [b]) == Swapped(s, a, b)
  {
    if s != [] {
      ReplaceOne(s[1..], a, b);
      assert [a] <= s <==> s[0] == a;
    }
  }

  lemma SwapPlus(xs: seq<Sextet>, pad: Bytes)
    requires '+' !in pad
    ensures Swapped(Spell(xs, '+', '/') + pad, '+', '-') == Spell(xs, '-', '/') + pad
  {
  }

  lemma SwapSlash(xs: seq<Sextet>, pad: Bytes)
    requires '/' !in pad
    ensures Swapped(Spell(xs, '-', '/') + pad, '/', '_') == Spell(xs, '-', '_') + pad
  {
  }

  lemma ToUrlAlphabet(xs: seq<Sextet>, pad: Bytes)
    requires '+' !in pad && '/' !in pad
    ensures Replace(Replace(Spell(xs, '+', '/') + pad, ['+'], ['-']), ['/'], ['_']) == Spell(xs, '-', '_') + pad
  {
    ReplaceOne(Spell(xs, '+', '/') + pad, '+', '-');
    SwapPlus(xs, pad);
    ReplaceOne(Spell(xs, '-', '/') + pad, '/', '_');
    SwapSlash(xs, pad);
  }

  lemma TrimPadding(s: Bytes, n: nat)
    requires s != [] ==> s[|s| - 1] != '='
    ensures TrimEnd(s + Padding(n), '=') == s
  {
    if n % 3 == 0 {
      assert s + [] == s;
    } else {
      TrimSnoc(s, '=');
      TrimSnoc(s + ['='], '=');
      assert s + ['=', '='] == s + ['='] + ['='];
    }
  }

  lemma TrimSnoc(s: Bytes, c: Byte)
    ensures TrimEnd(s + [c], c) == TrimEnd(s, c)
  {
    assert (s + [c])[..|s|] == s;
  }

  // ---------------------------------------------------------------------------
  // Reading back
  // ---------------------------------------------------------------------------

  /** Either alphabet, the padding left off. */
  function SextetOf(c: Byte): Option<Sextet> {
    if 'A' <= c <= 'Z' then Some(c as int - 'A' as int)
    else if 'a' <= c <= 'z' then Some(c as int - 'a' as int + 26)
    else if '0' <= c <= '9' then Some(c as int - '0' as int + 52)
    else if c == '+' || c == '-' then Some(62)
    else if c == '/' || c == '_' then Some(63)
    else None
  }

  function BytesOf(xs: seq<Sextet>): Bytes {
    if |xs| < 2 then []
    else
      var first := (xs[0] as int) * 4 + xs[1] / 16;
      if |xs| == 2 then [ByteOf(first)]
      else
        var second := (xs[1] as int) % 16 * 16 + xs[2] / 4;
        if |xs| == 3 then [ByteOf(first), ByteOf(second)]
        else [ByteOf(first), ByteOf(second), ByteOf((xs[2] as int) % 4 * 64 + xs[3])] + BytesOf(xs[4..])
  }

  function Decode(t: Bytes): Option<Bytes> {
    var body := TrimEnd(t, '=');
    if forall i :: 0 <= i < |body| ==> SextetOf(body[i]).Some? then
      Some(BytesOf(seq(|body|, i requires 0 <= i < |body| => SextetOf(body[i]).value)))
    else None
  }

  /** The bytes put together again from their six-bit fields. */
  lemma FieldsRejoin(b0: nat, b1: nat, b2: nat)
    requires b0 < 256 && b1 < 256 && b2 < 256
    ensures b0 / 4 * 4 + (b0 % 4 * 16 + b1 / 16) / 16 == b0
    ensures (b0 % 4 * 16 + b1 / 16) % 16 * 16 + (b1 % 16 * 4 + b2 / 64) / 4 == b1
    ensures (b1 % 16 * 4 + b2 / 64) % 4 * 64 + b2 % 64 == b2
  {
  }

  lemma FourBack(b0: Byte, b1: Byte, b2: Byte, rest: seq<Sextet>)
    ensures var first, second, third := b0 as int, b1 as int, b2 as int;
            BytesOf([first / 4, first % 4 * 16 + second / 16, second % 16 * 4 + third / 64, third % 64] + rest)
            == [b0, b1, b2] + BytesOf(rest)
  {
    var first, second, third := b0 as int, b1 as int, b2 as int;
    var four: seq<Sextet> := [first / 4, first % 4 * 16 + second / 16, second % 16 * 4 + third / 64, third % 64];
    FieldsRejoin(first, second, third);
    assert (four + rest)[4..] == rest && (four + rest)[..4] == four;
  }

  lemma OneBack(b: Byte)
    ensures BytesOf([b as int / 4, b as int % 4 * 16]) == [b]
  {
  }

  lemma TwoBack(b0: Byte, b1: Byte)
    ensures BytesOf([b0 as int / 4, b0 as int % 4 * 16 + b1 as int / 16, b1 as int % 16 * 4]) == [b0, b1]
  {
  }

  lemma {:induction false} SextetsRoundTrip(s: Bytes)
    ensures BytesOf(Sextets(s)) == s
  {
    if |s| == 1 {
      OneBack(s[0]);
    } else if |s| == 2 {
      TwoBack(s[0], s[1]);
    } else if |s| > 2 {
      SextetsRoundTrip(s[3..]);
      FourBack(s[0], s[1], s[2], Sextets(s[3..]));
      assert s == [s[0], s[1], s[2]] + s[3..];
    }
  }

  lemma SpellingReads(xs: seq<Sextet>, c62: Byte, c63: Byte, n: nat)
    requires SextetOf(c62) == Some(62) && SextetOf(c63) == Some(63)
    ensures Decode(Spell(xs, c62, c63) + Padding(n)) == Some(BytesOf(xs))
  {
    var body := Spell(xs, c62, c63);
    TrimPadding(body, n);
    forall i | 0 <= i < |xs|
      ensures SextetOf(body[i]) == Some(xs[i])
    {
    }
    assert seq(|body|, i requires 0 <= i < |body| => SextetOf(body[i]).value) == xs;
  }

  lemma Base64RoundTrip(s: Bytes)
    ensures Decode(Standard(s)) == Some(s) && Decode(UrlSafe(s)) == Some(s)
  {
    SextetsRoundTrip(s);
    SpellingReads(Sextets(s), '+', '/', |s|);
    SpellingReads(Sextets(s), '-', '_', 0);
    assert UrlSafe(s) + Padding(0) == UrlSafe(s);
  }
}
