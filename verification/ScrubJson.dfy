/**
 * The JSON spelling of a secret with brackets, the one spelling besides the plain one that a mask
 * can overlap in part. Here is exactly when it is hidden.
 */
module ScrubJson {
  import opened Common
  import opened Masking
  import opened Encodings
  import opened Scrub
  import opened ScrubLimits
  import Base64

  function Json(s: Bytes): Bytes {
    Each(s, JsonEscape)
  }

  // ---------------------------------------------------------------------------
  // Weighing texts
  // ---------------------------------------------------------------------------

  /** How many bytes of a text satisfy `p`. */
  ghost function Weigh(s: Bytes, p: Byte -> bool): nat {
    if s == [] then 0 else (if p(s[0]) then 1 else 0) + Weigh(s[1..], p)
  }

  lemma {:induction false} WeighAppend(a: Bytes, b: Bytes, p: Byte -> bool)
    ensures Weigh(a + b, p) == Weigh(a, p) + Weigh(b, p)
  {
    if a == [] {
      assert a + b == b;
    } else {
      assert (a + b)[1..] == a[1..] + b;
      WeighAppend(a[1..], b, p);
    }
  }

  /** A part weighs no more than the whole. */
  lemma WeighPart(s: Bytes, w: Bytes, p: Byte -> bool)
    requires Contains(s, w)
    ensures Weigh(w, p) <= Weigh(s, p)
  {
    var i :| 0 <= i <= |s| && OccursAt(s, w, i);
    assert s == s[..i] + w + s[i + |w|..];
    WeighAppend(s[..i] + w, s[i + |w|..], p);
    WeighAppend(s[..i], w, p);
  }

  lemma CountPart(s: Bytes, w: Bytes, c: Byte)
    requires Contains(s, w)
    ensures Count(w, c) <= Count(s, c)
  {
    var i :| 0 <= i <= |s| && OccursAt(s, w, i);
    assert s == s[..i] + w + s[i + |w|..];
    CountAppend(s[..i] + w, s[i + |w|..], c);
    CountAppend(s[..i], w, c);
  }

  lemma {:induction false} WeighEach(s: Bytes, light: Byte -> Bytes, heavy: Byte -> Bytes, p: Byte -> bool)
    requires forall b :: Weigh(light(b), p) <= Weigh(heavy(b), p)
    ensures Weigh(Each(s, light), p) <= Weigh(Each(s, heavy), p)
  {
    if s != [] {
      WeighEach(s[1..], light, heavy, p);
      WeighAppend(light(s[0]), Each(s[1..], light), p);
      WeighAppend(heavy(s[0]), Each(s[1..], heavy), p);
    }
  }

  /** One byte that weighs more makes the whole weigh more. */
  lemma {:induction false} WeighMore(s: Bytes, light: Byte -> Bytes, heavy: Byte -> Bytes, p: Byte -> bool, i: nat)
    requires forall b :: Weigh(light(b), p) <= Weigh(heavy(b), p)
    requires i < |s| && Weigh(light(s[i]), p) < Weigh(heavy(s[i]), p)
    ensures Weigh(Each(s, light), p) < Weigh(Each(s, heavy), p)
  {
    WeighAppend(light(s[0]), Each(s[1..], light), p);
    WeighAppend(heavy(s[0]), Each(s[1..], heavy), p);
    if i == 0 {
      WeighEach(s[1..], light, heavy, p);
    } else {
      WeighMore(s[1..], light, heavy, p, i - 1);
    }
  }

  lemma {:induction false} WeighAtMost(s: Bytes, spell: Byte -> Bytes, p: Byte -> bool)
    requires forall b :: Weigh(spell(b), p) <= 1
    ensures Weigh(Each(s, spell), p) <= |s|
  {
    if s != [] {
      WeighAtMost(s[1..], spell, p);
      WeighAppend(spell(s[0]), Each(s[1..], spell), p);
    }
  }

  predicate Percent(b: Byte) {
    b == '%'
  }

  predicate Ampersand(b: Byte) {
    b == '&'
  }

  /** Not among the bytes that every `\u00xx` escape of a control character is made of. */
  predicate Heavy(b: Byte) {
    b != '0' && b != '1' && b != 'u' && b != '\\'
  }

  lemma WeighTwo(a: Byte, b: Byte, p: Byte -> bool)
    ensures Weigh([a, b], p) == (if p(a) then 1 else 0) + (if p(b) then 1 else 0)
  {
    assert [a, b][1..] == [b] && [b][1..] == [];
    assert Weigh([b], p) == (if p(b) then 1 else 0) + Weigh([], p);
  }

  lemma WeighOne(a: Byte, p: Byte -> bool)
    ensures Weigh([a], p) == if p(a) then 1 else 0
  {
    assert [a][1..] == [];
  }

  lemma {:induction false} WeighNothing(s: Bytes, p: Byte -> bool)
    requires forall i :: 0 <= i < |s| ==> !p(s[i])
    ensures Weigh(s, p) == 0
  {
    if s != [] {
      WeighNothing(s[1..], p);
    }
  }

  // ---------------------------------------------------------------------------
  // What one byte weighs
  // ---------------------------------------------------------------------------

  predicate Bracket(b: Byte) {
    b == '[' || b == ']'
  }

  function HexWeight(b: Byte): nat {
    (if b as int / 16 >= 2 then 1 else 0) + (if b as int % 16 >= 2 then 1 else 0)
  }

  lemma Hex2Weighs(b: Byte, letter: Byte)
    requires letter == 'a' || letter == 'A'
    ensures Weigh(Hex2(b, letter), Heavy) == HexWeight(b)
  {
    WeighTwo(Digit(b as int / 16, letter), Digit(b as int % 16, letter), Heavy);
  }

  lemma UnicodeWeighs(b: Byte)
    ensures Weigh(UnicodeEscape(b), Heavy) == HexWeight(b)
  {
    WeighAppend(['\\', 'u', '0', '0'], Hex2(b, 'a'), Heavy);
    WeighNothing(['\\', 'u', '0', '0'], Heavy);
    Hex2Weighs(b, 'a');
  }

  /** A JSON escape never weighs more than the hexadecimal digits of its byte, nor more than one. */
  lemma JsonWeighs(b: Byte)
    ensures Weigh(JsonEscape(b), Heavy) <= 1 && Weigh(JsonEscape(b), Heavy) <= HexWeight(b)
    ensures Bracket(b) ==> Weigh(JsonEscape(b), Heavy) < HexWeight(b)
  {
    if |JsonEscape(b)| == 2 {
      WeighTwo(JsonEscape(b)[0], JsonEscape(b)[1], Heavy);
    } else if |JsonEscape(b)| == 1 {
      WeighOne(b, Heavy);
    } else {
      UnicodeWeighs(b);
    }
  }

  lemma {:induction false} WeighHas(s: Bytes, p: Byte -> bool, i: nat)
    requires i < |s| && p(s[i])
    ensures Weigh(s, p) >= 1
  {
    if i > 0 {
      WeighHas(s[1..], p, i - 1);
    }
  }

  /** JSON keeps every percent sign and ampersand and makes none. */
  lemma JsonKeepsSigns(b: Byte)
    ensures Weigh(JsonEscape(b), Percent) == if b == '%' then 1 else 0
    ensures Weigh(JsonEscape(b), Ampersand) == if b == '&' then 1 else 0
  {
    if JsonEscape(b) == [b] {
      WeighOne(b, Percent);
      WeighOne(b, Ampersand);
    } else {
      WeighNothing(JsonEscape(b), Percent);
      WeighNothing(JsonEscape(b), Ampersand);
    }
  }

  lemma PercentWeighs(b: Byte)
    ensures Weigh(JsonEscape(b), Percent) <= Weigh(PercentUpper(b), Percent)
    ensures Weigh(JsonEscape(b), Percent) <= Weigh(PercentLower(b), Percent)
    ensures Weigh(Itself(b), Percent) <= Weigh(PercentUpper(b), Percent)
    ensures Bracket(b) ==> Weigh(JsonEscape(b), Percent) < Weigh(PercentUpper(b), Percent)
    ensures Bracket(b) ==> Weigh(JsonEscape(b), Percent) < Weigh(PercentLower(b), Percent)
  {
    JsonKeepsSigns(b);
    WeighOne(b, Percent);
    if !Unreserved(b) {
      WeighHas(PercentUpper(b), Percent, 0);
      WeighHas(PercentLower(b), Percent, 0);
    }
  }

  lemma HtmlWeighs(b: Byte)
    ensures Weigh(JsonEscape(b), Ampersand) <= 1 <= Weigh(HtmlDecimal(b), Ampersand)
    ensures 1 <= Weigh(HtmlHex(b), Ampersand)
    ensures Bracket(b) ==> Weigh(JsonEscape(b), Ampersand) == 0
  {
    JsonKeepsSigns(b);
    WeighHas(HtmlDecimal(b), Ampersand, 0);
    WeighHas(HtmlHex(b), Ampersand, 0);
  }

  // ---------------------------------------------------------------------------
  // What does not occur in the JSON spelling of a secret with a bracket
  // ---------------------------------------------------------------------------

  lemma HeavierIsOutside(x: Bytes, form: Bytes, p: Byte -> bool)
    requires Weigh(Json(x), p) < Weigh(form, p)
    ensures !Contains(Json(x), form)
  {
    if Contains(Json(x), form) {
      WeighPart(Json(x), form, p);
    }
  }

  lemma HexOutside(x: Bytes, i: nat)
    requires i < |x| && Bracket(x[i])
    ensures !Contains(Json(x), Each(x, HexLower)) && !Contains(Json(x), Each(x, HexUpper))
    ensures !Contains(Json(x), Each(x, UnicodeEscape))
  {
    forall b
      ensures Weigh(HexLower(b), Heavy) == Weigh(HexUpper(b), Heavy) == Weigh(UnicodeEscape(b), Heavy) == HexWeight(b)
      ensures Weigh(JsonEscape(b), Heavy) <= HexWeight(b)
      ensures Bracket(b) ==> Weigh(JsonEscape(b), Heavy) < HexWeight(b)
    {
      Hex2Weighs(b, 'a');
      Hex2Weighs(b, 'A');
      UnicodeWeighs(b);
      JsonWeighs(b);
    }
    WeighMore(x, JsonEscape, HexLower, Heavy, i);
    WeighMore(x, JsonEscape, HexUpper, Heavy, i);
    WeighMore(x, JsonEscape, UnicodeEscape, Heavy, i);
    HeavierIsOutside(x, Each(x, HexLower), Heavy);
    HeavierIsOutside(x, Each(x, HexUpper), Heavy);
    HeavierIsOutside(x, Each(x, UnicodeEscape), Heavy);
  }

  lemma PercentOutside(x: Bytes, i: nat)
    requires i < |x| && Bracket(x[i])
    ensures !Contains(Json(x), Each(x, PercentUpper)) && !Contains(Json(x), Each(x, PercentLower))
    ensures !Contains(Json(x), Each(Each(x, PercentUpper), PercentUpper))
  {
    forall b
      ensures Weigh(JsonEscape(b), Percent) <= Weigh(PercentUpper(b), Percent)
      ensures Weigh(JsonEscape(b), Percent) <= Weigh(PercentLower(b), Percent)
      ensures Weigh(Itself(b), Percent) <= Weigh(PercentUpper(b), Percent)
    {
      PercentWeighs(b);
    }
    PercentWeighs(x[i]);
    var url := Each(x, PercentUpper);
    WeighMore(x, JsonEscape, PercentUpper, Percent, i);
    WeighMore(x, JsonEscape, PercentLower, Percent, i);
    WeighEach(url, Itself, PercentUpper, Percent);
    EachItself(url);
    HeavierIsOutside(x, url, Percent);
    HeavierIsOutside(x, Each(x, PercentLower), Percent);
    HeavierIsOutside(x, Each(url, PercentUpper), Percent);
  }

  lemma HtmlOutside(x: Bytes, i: nat)
    requires i < |x| && Bracket(x[i])
    ensures !Contains(Json(x), Each(x, HtmlDecimal)) && !Contains(Json(x), Each(x, HtmlHex))
  {
    forall b
      ensures Weigh(JsonEscape(b), Ampersand) <= 1 <= Weigh(HtmlDecimal(b), Ampersand)
      ensures 1 <= Weigh(HtmlHex(b), Ampersand)
    {
      HtmlWeighs(b);
    }
    HtmlWeighs(x[i]);
    WeighMore(x, JsonEscape, HtmlDecimal, Ampersand, i);
    WeighMore(x, JsonEscape, HtmlHex, Ampersand, i);
    HeavierIsOutside(x, Each(x, HtmlDecimal), Ampersand);
    HeavierIsOutside(x, Each(x, HtmlHex), Ampersand);
  }

  /** What a spelling of the secret in its JSON spelling can be at most. */
  lemma SpellingsOutside(x: Bytes, i: nat, form: Bytes)
    requires i < |x| && Bracket(x[i]) && Spelling(x, form)
    requires form != x && form != Json(x) && form != Base64.Standard(x) && form != Base64.UrlSafe(x)
    ensures !Contains(Json(x), form)
  {
    PercentOutside(x, i);
    HexOutside(x, i);
    HtmlOutside(x, i);
  }

  // ---------------------------------------------------------------------------
  // The spellings of a block of filler weigh more than any JSON spelling of that length
  // ---------------------------------------------------------------------------

  lemma {:induction false} WeighBlock(c: Byte, n: nat, spell: Byte -> Bytes, p: Byte -> bool)
    requires Weigh(spell(c), p) >= 2
    ensures Weigh(Each(Block(c, n), spell), p) >= 2 * n
  {
    if n > 0 {
      assert Block(c, n)[0] == c && Block(c, n)[1..] == Block(c, n - 1);
      WeighBlock(c, n - 1, spell, p);
      WeighAppend(spell(c), Each(Block(c, n - 1), spell), p);
    }
  }

  lemma FillerWeighs(c: Byte)
    requires Filler(c)
    ensures Weigh(PercentUpper(c), Heavy) >= 2 && Weigh(PercentLower(c), Heavy) >= 2
    ensures Weigh(HexLower(c), Heavy) >= 2 && Weigh(HexUpper(c), Heavy) >= 2 && Weigh(UnicodeEscape(c), Heavy) >= 2
    ensures Weigh(HtmlDecimal(c), Heavy) >= 2 && Weigh(HtmlHex(c), Heavy) >= 2
  {
    Hex2Weighs(c, 'a');
    Hex2Weighs(c, 'A');
    UnicodeWeighs(c);
    WeighAppend(['%'], Hex2(c, 'A'), Heavy);
    WeighAppend(['%'], Hex2(c, 'a'), Heavy);
    SignsWeigh(HtmlDecimal(c));
    SignsWeigh(HtmlHex(c));
  }

  lemma SignsWeigh(s: Bytes)
    requires ['&', '#'] <= s
    ensures Weigh(s, Heavy) >= 2
  {
    assert s == ['&', '#'] + s[2..];
    WeighAppend(['&', '#'], s[2..], Heavy);
    WeighTwo('&', '#', Heavy);
  }

  lemma PercentKeepsHeavy(b: Byte)
    ensures Weigh(Itself(b), Heavy) <= Weigh(PercentUpper(b), Heavy)
  {
    WeighOne(b, Heavy);
    if !Unreserved(b) {
      WeighHas(PercentUpper(b), Heavy, 0);
    }
  }

  lemma {:induction false} WeighAll(s: Bytes, p: Byte -> bool)
    requires forall i :: 0 <= i < |s| ==> p(s[i])
    ensures Weigh(s, p) == |s|
  {
    if s != [] {
      WeighAll(s[1..], p);
    }
  }

  /** Not the sextets of `0`, `1` and `u`. */
  predicate HeavySextet(x: Base64.Sextet) {
    x != 46 && x != 52 && x != 53
  }

  lemma {:induction false} FillerSextets(c: Byte, n: nat, i: nat)
    requires Filler(c) && i < |Base64.Sextets(Block(c, n))|
    ensures HeavySextet(Base64.Sextets(Block(c, n))[i])
  {
    var s := Block(c, n);
    if n >= 3 {
      assert s[3..] == Block(c, n - 3);
      if i >= 4 {
        FillerSextets(c, n - 3, i - 4);
      }
    }
  }

  lemma Base64BlockWeighs(c: Byte, n: nat)
    requires Filler(c) && n > 0
    ensures Weigh(Base64.Standard(Block(c, n)), Heavy) > n && Weigh(Base64.UrlSafe(Block(c, n)), Heavy) > n
  {
    var standard, urlSafe := Base64.Standard(Block(c, n)), Base64.UrlSafe(Block(c, n));
    var xs := Base64.Sextets(Block(c, n));
    SextetsLength(Block(c, n));
    forall i | 0 <= i < |xs|
      ensures HeavySextet(xs[i])
    {
      FillerSextets(c, n, i);
    }
    WeighAll(standard, Heavy);
    WeighAll(urlSafe, Heavy);
  }

  lemma BlockSpellingWeighs(c: Byte, n: nat, form: Bytes)
    requires Filler(c) && n > 0 && Spelling(Block(c, n), form) && form != Block(c, n)
    ensures Weigh(form, Heavy) > n
  {
    var url := Each(Block(c, n), PercentUpper);
    FillerWeighs(c);
    JsonKeepsBlock(c, n);
    WeighBlock(c, n, PercentUpper, Heavy);
    WeighBlock(c, n, PercentLower, Heavy);
    WeighBlock(c, n, HexLower, Heavy);
    WeighBlock(c, n, HexUpper, Heavy);
    WeighBlock(c, n, UnicodeEscape, Heavy);
    WeighBlock(c, n, HtmlDecimal, Heavy);
    WeighBlock(c, n, HtmlHex, Heavy);
    Base64BlockWeighs(c, n);
    DoubleKeepsHeavy(url);
  }

  lemma DoubleKeepsHeavy(url: Bytes)
    ensures Weigh(url, Heavy) <= Weigh(Each(url, PercentUpper), Heavy)
  {
    forall b
      ensures Weigh(Itself(b), Heavy) <= Weigh(PercentUpper(b), Heavy)
    {
      PercentKeepsHeavy(b);
    }
    WeighEach(url, Itself, PercentUpper, Heavy);
    EachItself(url);
  }

  lemma JsonIsLight(x: Bytes)
    ensures Weigh(Json(x), Heavy) <= |x|
  {
    forall b
      ensures Weigh(JsonEscape(b), Heavy) <= 1
    {
      JsonWeighs(b);
    }
    WeighAtMost(x, JsonEscape, Heavy);
  }

  lemma JsonKeepsCount(x: Bytes, c: Byte)
    requires Foreign(c)
    ensures Count(Json(x), c) == Count(x, c)
  {
    forall b
      ensures Count(JsonEscape(b), c) == if b == c then 1 else 0
    {
      if JsonEscape(b) == [b] {
        assert [b][1..] == [];
      } else {
        CountAtMost(JsonEscape(b), c);
      }
    }
    CountEach(x, JsonEscape, c);
  }

  lemma BlockSpellingsOutside(x: Bytes, c: Byte, form: Bytes)
    requires x != [] && Filler(c) && x[0] != c && Spelling(Block(c, |x|), form)
    ensures !Contains(Json(x), form)
  {
    if form == Block(c, |x|) {
      CountBlock(c, |x|);
      CountBelow(x, c);
      JsonKeepsCount(x, c);
      if Contains(Json(x), form) {
        CountPart(Json(x), form, c);
      }
    } else {
      BlockSpellingWeighs(c, |x|, form);
      JsonIsLight(x);
      HeavierIsOutside(x, form, Heavy);
    }
  }

  // ---------------------------------------------------------------------------
  // The halves around a bracket
  // ---------------------------------------------------------------------------

  lemma PartOfPart(s: Bytes, t: Bytes, w: Bytes, d: nat)
    requires OccursAt(s, t, d) && Contains(t, w)
    ensures Contains(s, w)
  {
    var i :| 0 <= i <= |t| && OccursAt(t, w, i);
    assert t <= s[d..];
    OccursInPrefix(t, s[d..], w, i);
    OccursInTail(s, w, d, i);
  }

  lemma EndsArePart(v: Bytes, left: Bytes, right: Bytes, k: nat, w: Bytes)
    requires EndsAround(v, left, right, k) && !Contains(v, w)
    ensures Free(left, right, w)
  {
    assert OccursAt(v, left, 0) && OccursAt(v, right, |v| - |right|);
    if Contains(left, w) {
      PartOfPart(v, left, w, 0);
    }
    if Contains(right, w) {
      PartOfPart(v, right, w, |v| - |right|);
    }
  }

  /** A text with as many of the bracket at `k` as the whole is in neither half. */
  lemma TooManyBrackets(v: Bytes, left: Bytes, right: Bytes, k: nat, w: Bytes)
    requires EndsAround(v, left, right, k) && Count(w, v[k]) == Count(v, v[k])
    ensures Free(left, right, w)
  {
    var c := v[k];
    assert v == v[..k] + [c] + v[k + 1..];
    CountAppend(v[..k] + [c], v[k + 1..], c);
    CountAppend(v[..k], [c], c);
    assert Count([c], c) == 1 + Count([], c) by {
      assert [c][1..] == [];
    }
    HalfCounts(v[..k], left, 0, c);
    HalfCounts(v[k + 1..], right, |v| - |right| - k - 1, c);
    if Contains(left, w) {
      CountPart(left, w, c);
    }
    if Contains(right, w) {
      CountPart(right, w, c);
    }
  }

  lemma HalfCounts(s: Bytes, t: Bytes, d: nat, c: Byte)
    requires OccursAt(s, t, d)
    ensures Count(t, c) <= Count(s, c)
  {
    CountPart(s, t, c);
  }

  /** With a bracket at `k` left out, neither half holds a spelling of the secret, base64 apart. */
  lemma HalvesFreeOfSecret(x: Bytes, left: Bytes, right: Bytes, k: nat)
    requires EndsAround(Json(x), left, right, k) && Bracket(Json(x)[k])
    requires !Contains(Json(x), Base64.Standard(x)) && !Contains(Json(x), Base64.UrlSafe(x))
    ensures FreeOf(left, right, x)
  {
    var i := BracketInSecret(x, k);
    var w := Json(x);
    forall form | Spelling(x, form)
      ensures Free(left, right, form)
    {
      if form == x || form == w {
        JsonKeepsCount(x, w[k]);
        TooManyBrackets(w, left, right, k, form);
      } else {
        if form != Base64.Standard(x) && form != Base64.UrlSafe(x) {
          SpellingsOutside(x, i, form);
        }
        EndsArePart(w, left, right, k, form);
      }
    }
  }

  lemma HalvesFreeOfBlock(x: Bytes, left: Bytes, right: Bytes, k: nat, c: Byte)
    requires EndsAround(Json(x), left, right, k) && x != [] && Filler(c) && x[0] != c
    ensures FreeOf(left, right, Block(c, |x|))
  {
    forall form | Spelling(Block(c, |x|), form)
      ensures Free(left, right, form)
    {
      BlockSpellingsOutside(x, c, form);
      EndsArePart(Json(x), left, right, k, form);
    }
  }

  lemma {:induction false} CountHas(s: Bytes, i: nat)
    requires i < |s|
    ensures Count(s, s[i]) >= 1
  {
    if i > 0 {
      CountHas(s[1..], i - 1);
    }
  }

  /** A bracket of the JSON spelling is one of the secret. */
  lemma BracketInSecret(x: Bytes, k: nat) returns (i: nat)
    requires k < |Json(x)| && Bracket(Json(x)[k])
    ensures i < |x| && Bracket(x[i])
  {
    var c := Json(x)[k];
    CountHas(Json(x), k);
    JsonKeepsCount(x, c);
    CountAtMost(x, c);
    i :| i < |x| && x[i] == c;
  }

  // ---------------------------------------------------------------------------
  // Exactly when the JSON spelling is hidden
  // ---------------------------------------------------------------------------

  /** The sextets of letters outside the mask's word that a bracket gives rise to. */
  predicate OutsideWord(x: Base64.Sextet) {
    x == 22 || x == 23 || x == 27 || x == 29 || 44 <= x <= 47 || 52 <= x <= 55
  }

  lemma BracketInChunk(x: Bytes, i: nat)
    requires i < |x| && i < 3 && Bracket(x[i])
    ensures var k := if i == 0 then 0 else i + 1;
            k < |Base64.Sextets(x)| && OutsideWord(Base64.Sextets(x)[k])
  {
    var b := x[i] as int;
    assert b == 0x5B || b == 0x5D;
    if i == 0 {
      assert Base64.Sextets(x)[0] == b / 4;
    } else if i == 1 {
      assert Base64.Sextets(x)[2] == b % 16 * 4 + if |x| == 2 then 0 else x[2] as int / 64;
    } else {
      assert Base64.Sextets(x)[3] == b % 64;
    }
  }

  lemma {:induction false} BracketSextet(x: Bytes, i: nat) returns (k: nat)
    requires i < |x| && Bracket(x[i])
    ensures k < |Base64.Sextets(x)| && OutsideWord(Base64.Sextets(x)[k])
  {
    if i >= 3 {
      k := BracketSextet(x[3..], i - 3);
      assert Base64.Sextets(x)[k + 4] == Base64.Sextets(x[3..])[k];
      k := k + 4;
    } else {
      BracketInChunk(x, i);
      k := if i == 0 then 0 else i + 1;
    }
  }

  /** The base64 spellings of a secret with a bracket cannot overlap a mask. */
  lemma Base64Clear(x: Bytes, i: nat)
    requires i < |x| && Bracket(x[i])
    ensures !Clash(Base64.Standard(x), REDACTED) && !Clash(Base64.UrlSafe(x), REDACTED)
  {
    var k := BracketSextet(x, i);
    Base64AvoidsForeign(x, '[');
    Base64AvoidsForeign(x, ']');
    OutsideMask(Base64.Standard(x), k);
    OutsideMask(Base64.UrlSafe(x), k);
  }

  lemma {:induction false} JsonMarks(x: Bytes)
    requires Json(x) != x
    ensures '\\' in Json(x)
  {
    if JsonEscape(x[0]) == [x[0]] {
      assert x == [x[0]] + x[1..];
      JsonMarks(x[1..]);
    } else {
      assert Json(x)[0] == '\\';
    }
  }

  /** Where the JSON spelling can overlap a mask, it does so with a bracket. */
  lemma JsonSplits(x: Bytes) returns (left: Bytes, right: Bytes, k: nat)
    requires Json(x) != x && Clash(Json(x), REDACTED)
    ensures EndsAround(Json(x), left, right, k) && Contains(left + REDACTED + right, Json(x)) && Bracket(Json(x)[k])
  {
    JsonMarks(x);
    left, right, k := ClashSplits(Json(x), REDACTED);
    assert '\\' !in REDACTED;
  }

  lemma ClashingJsonSurvives(x: Bytes) returns (body: Bytes, other: Bytes)
    requires Json(x) != x && Clash(Json(x), REDACTED)
    requires !Contains(Json(x), Base64.Standard(x)) && !Contains(Json(x), Base64.UrlSafe(x))
    ensures Contains(Scrubbed(body, [x, other]), Json(x))
  {
    var left, right, k := JsonSplits(x);
    var c := PickFiller(x[0], x[|x| - 1], if left == [] then x[0] else left[|left| - 1]);
    other := Block(c, |x|);
    body := left + other + right;
    HalvesFreeOfSecret(x, left, right, k);
    HalvesFreeOfBlock(x, left, right, k, c);
    HalvesJoined(x, c, left, right);
  }

  /** What holds a hidden text is hidden with it. */
  lemma HiddenWithPart(body: Bytes, secrets: seq<Bytes>, x: Bytes, w: Bytes, part: Bytes)
    requires x in secrets && x != [] && Spelling(x, part) && !Clash(part, REDACTED) && Contains(w, part)
    ensures !Contains(Scrubbed(body, secrets), w)
  {
    NoSpellingSurvives(body, secrets, x, part);
    if i :| 0 <= i <= |Scrubbed(body, secrets)| && OccursAt(Scrubbed(body, secrets), w, i) {
      PartOfPart(Scrubbed(body, secrets), w, part, i);
    }
  }

  lemma JsonHidden(body: Bytes, secrets: seq<Bytes>, x: Bytes)
    requires x in secrets && Json(x) != x
    requires !Clash(Json(x), REDACTED) || Contains(Json(x), Base64.Standard(x)) || Contains(Json(x), Base64.UrlSafe(x))
    ensures !Contains(Scrubbed(body, secrets), Json(x))
  {
    if !Clash(Json(x), REDACTED) {
      NoSpellingSurvives(body, secrets, x, Json(x));
    } else {
      var _, _, k := JsonSplits(x);
      var i := BracketInSecret(x, k);
      Base64Clear(x, i);
      HiddenWithPart(body, secrets, x, Json(x),
                     if Contains(Json(x), Base64.Standard(x)) then Base64.Standard(x) else Base64.UrlSafe(x));
    }
  }

  /**
   * A JSON spelling that differs from the secret is hidden in every response, next to every other
   * secret, if and only if it cannot overlap a mask or holds a base64 spelling of the secret, which
   * is masked and cannot come back.
   */
  lemma JsonHiddenIff(x: Bytes)
    requires Json(x) != x
    ensures (forall body, secrets :: x in secrets ==> !Contains(Scrubbed(body, secrets), Json(x)))
            <==> (!Clash(Json(x), REDACTED) || Contains(Json(x), Base64.Standard(x)) || Contains(Json(x), Base64.UrlSafe(x)))
  {
    if !Clash(Json(x), REDACTED) || Contains(Json(x), Base64.Standard(x)) || Contains(Json(x), Base64.UrlSafe(x)) {
      forall body, secrets | x in secrets
        ensures !Contains(Scrubbed(body, secrets), Json(x))
      {
        JsonHidden(body, secrets, x);
      }
    } else {
      var body, other := ClashingJsonSurvives(x);
      assert x in [x, other];
    }
  }
}
