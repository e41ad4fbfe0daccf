/** Which secrets scrubbing can promise to hide, and which bodies it leaves alone. */
module ScrubLimits {
  import opened Masking
  import opened Encodings
  import opened StableSort
  import opened Scrub
  import Base64

  // ---------------------------------------------------------------------------
  // Bodies without a secret
  // ---------------------------------------------------------------------------

  lemma {:induction false} MaskAbsent(s: Bytes, forms: seq<Bytes>)
    requires Nonempty(forms) && forall i :: 0 <= i < |forms| ==> !Contains(s, forms[i])
    ensures MaskAll(s, forms) == s
  {
    if forms != [] {
      var last := |forms| - 1;
      MaskAbsent(s, forms[..last]);
      ReplaceAbsent(s, forms[last], REDACTED);
    }
  }

  /** A body without any spelling of any secret comes back as it was. */
  lemma CleanBodyUntouched(body: Bytes, secrets: seq<Bytes>)
    requires forall secret, form :: secret in secrets && secret != [] && Spelling(secret, form) ==> !Contains(body, form)
    ensures Scrubbed(body, secrets) == body
  {
    LongestFirstOrder(secrets);
    var order := LongestFirst(secrets);
    var forms := AllForms(order);
    AllFormsNonempty(order);
    forall i | 0 <= i < |forms|
      ensures !Contains(body, forms[i])
    {
      InConcat(order, FormsOf, forms[i]);
      var k :| 0 <= k < |order| && forms[i] in FormsOf(order[k]);
      FormsAreSpellings(order[k], forms[i]);
      assert order[k] in secrets;
    }
    MaskAbsent(body, forms);
  }

  // ---------------------------------------------------------------------------
  // Spellings that are safe whatever the secret
  // ---------------------------------------------------------------------------

  lemma OutsideMask(v: Bytes, i: nat)
    requires '[' !in v && ']' !in v && i < |v| && v[i] !in "CREDENTIAL"
    ensures !Clash(v, REDACTED)
  {
    var word := "CREDENTIAL";
    forall k | 0 <= k <= |word|
      ensures !OccursAt(word, v, k)
    {
      assert k + |v| <= |word| ==> word[k..k + |v|][i] == word[k + i] && word[k + i] in word;
    }
    PlainTextsDoNotClash(v);
  }

  lemma {:induction false} EachAvoids(s: Bytes, spell: Byte -> Bytes, c: Byte)
    requires forall b :: c !in spell(b)
    ensures c !in Each(s, spell)
  {
    if s != [] {
      EachAvoids(s[1..], spell, c);
    }
  }

  lemma {:induction false} PercentMarks(s: Bytes)
    ensures Each(s, PercentUpper) != s ==> '%' in Each(s, PercentUpper)
    ensures Each(s, PercentLower) != s ==> '%' in Each(s, PercentLower)
  {
    if s != [] {
      PercentMarks(s[1..]);
      assert s == [s[0]] + s[1..];
      assert !Unreserved(s[0]) ==> PercentUpper(s[0])[0] == '%' && PercentLower(s[0])[0] == '%';
    }
  }

  lemma ChangedByPercentIsClear(s: Bytes)
    ensures Each(s, PercentUpper) != s ==> !Clash(Each(s, PercentUpper), REDACTED)
    ensures Each(s, PercentLower) != s ==> !Clash(Each(s, PercentLower), REDACTED)
  {
    var upper, lower := Each(s, PercentUpper), Each(s, PercentLower);
    PercentMarks(s);
    EachAvoids(s, PercentUpper, '[');
    EachAvoids(s, PercentUpper, ']');
    EachAvoids(s, PercentLower, '[');
    EachAvoids(s, PercentLower, ']');
    if i :| 0 <= i < |upper| && upper[i] == '%' {
      OutsideMask(upper, i);
    }
    if i :| 0 <= i < |lower| && lower[i] == '%' {
      OutsideMask(lower, i);
    }
  }

  /** A spelling that starts outside the mask's word and has no brackets cannot overlap a mask. */
  ghost predicate Clear(spelling: Bytes) {
    spelling != [] && spelling[0] !in "CREDENTIAL" && '[' !in spelling && ']' !in spelling
  }

  lemma EachClear(s: Bytes, spell: Byte -> Bytes)
    requires s != [] && forall b :: Clear(spell(b))
    ensures !Clash(Each(s, spell), REDACTED)
  {
    EachAvoids(s, spell, '[');
    EachAvoids(s, spell, ']');
    assert Clear(spell(s[0])) && Each(s, spell)[0] == spell(s[0])[0];
    OutsideMask(Each(s, spell), 0);
  }

  lemma NumericClear(s: Bytes)
    requires s != []
    ensures !Clash(Each(s, HexLower), REDACTED) && !Clash(Each(s, UnicodeEscape), REDACTED)
    ensures !Clash(Each(s, HtmlDecimal), REDACTED) && !Clash(Each(s, HtmlHex), REDACTED)
  {
    forall b
      ensures Clear(HexLower(b)) && Clear(UnicodeEscape(b)) && Clear(HtmlDecimal(b)) && Clear(HtmlHex(b))
    {
      assert HexLower(b)[0] == Digit(b as int / 16, 'a');
    }
    EachClear(s, HexLower);
    EachClear(s, UnicodeEscape);
    EachClear(s, HtmlDecimal);
    EachClear(s, HtmlHex);
  }

  lemma ChangedByDoublePercentIsClear(s: Bytes)
    ensures Each(Each(s, PercentUpper), PercentUpper) != s ==> !Clash(Each(Each(s, PercentUpper), PercentUpper), REDACTED)
  {
    var url := Each(s, PercentUpper);
    if url != s {
      PercentMarks(s);
      var i :| 0 <= i < |url| && url[i] == '%';
      PercentGrows(url, i);
    }
    ChangedByPercentIsClear(url);
  }

  /** A text with a reserved byte is longer in percent spelling. */
  lemma {:induction false} PercentGrows(s: Bytes, i: nat)
    requires i < |s| && !Unreserved(s[i])
    ensures |Each(s, PercentUpper)| > |s|
  {
    EachLength(s[1..], PercentUpper, 1);
    if i > 0 {
      PercentGrows(s[1..], i - 1);
    }
  }

  /**
   * The lower-case hexadecimal and numeric spellings never survive, and a single or double percent
   * spelling only where it is the secret itself.
   */
  lemma NumericSpellingsNeverSurvive(body: Bytes, secrets: seq<Bytes>, secret: Bytes, form: Bytes)
    requires secret in secrets && secret != []
    requires
      || form == Each(secret, HexLower) || form == Each(secret, UnicodeEscape)
      || form == Each(secret, HtmlDecimal) || form == Each(secret, HtmlHex)
      || (form != secret && (form == Each(secret, PercentUpper) || form == Each(secret, PercentLower)))
      || (form != secret && form == Each(Each(secret, PercentUpper), PercentUpper))
    ensures !Contains(Scrubbed(body, secrets), form)
  {
    NumericClear(secret);
    ChangedByPercentIsClear(secret);
    ChangedByDoublePercentIsClear(secret);
    assert Spelling(secret, form) && !Clash(form, REDACTED);
    NoSpellingSurvives(body, secrets, secret, form);
  }

  // ---------------------------------------------------------------------------
  // A secret that can overlap a mask
  // ---------------------------------------------------------------------------

  function Block(c: Byte, n: nat): Bytes {
    seq(n, _ => c)
  }

  ghost function Count(s: Bytes, c: Byte): nat {
    if s == [] then 0 else (if s[0] == c then 1 else 0) + Count(s[1..], c)
  }

  lemma {:induction false} CountAppend(a: Bytes, b: Bytes, c: Byte)
    ensures Count(a + b, c) == Count(a, c) + Count(b, c)
  {
    if a == [] {
      assert a + b == b;
    } else {
      assert (a + b)[1..] == a[1..] + b;
      CountAppend(a[1..], b, c);
    }
  }

  lemma {:induction false} CountAtMost(s: Bytes, c: Byte)
    ensures Count(s, c) <= |s|
    ensures c !in s ==> Count(s, c) == 0
  {
    if s != [] {
      CountAtMost(s[1..], c);
    }
  }

  lemma {:induction false} CountBlock(c: Byte, n: nat)
    ensures Count(Block(c, n), c) == n
  {
    if n > 0 {
      assert Block(c, n)[1..] == Block(c, n - 1);
      CountBlock(c, n - 1);
    }
  }

  lemma {:induction false} CountEach(s: Bytes, spell: Byte -> Bytes, c: Byte)
    requires forall b :: Count(spell(b), c) == if b == c then 1 else 0
    ensures Count(Each(s, spell), c) == Count(s, c)
  {
    if s != [] {
      CountEach(s[1..], spell, c);
      CountAppend(spell(s[0]), Each(s[1..], spell), c);
    }
  }

  lemma CountRun(w: Bytes, k: nat, c: Byte, n: nat)
    requires k + n <= |w| && forall j :: k <= j < k + n ==> w[j] == c
    ensures Count(w, c) >= n
  {
    assert w[k..k + n] == Block(c, n);
    assert w == w[..k] + w[k..k + n] + w[k + n..];
    CountAppend(w[..k] + Block(c, n), w[k + n..], c);
    CountAppend(w[..k], Block(c, n), c);
    CountBlock(c, n);
  }

  ghost predicate Rare(w: Bytes, c: Byte, n: nat) {
    0 < n <= |w| && w[0] != c && w[|w| - 1] != c && Count(w, c) < n
  }

  /** Neither half holds the text. */
  ghost predicate Free(left: Bytes, right: Bytes, w: Bytes) {
    !Contains(left, w) && !Contains(right, w)
  }

  lemma ShortIsFree(left: Bytes, right: Bytes, w: Bytes)
    requires |left| < |w| && |right| < |w|
    ensures Free(left, right, w)
  {
  }

  /** Neither half holds a spelling of the value. */
  ghost predicate FreeOf(left: Bytes, right: Bytes, value: Bytes) {
    forall form :: Spelling(value, form) ==> Free(left, right, form)
  }

  lemma ShortIsFreeOf(left: Bytes, right: Bytes, value: Bytes)
    requires |left| < |value| && |right| < |value|
    ensures FreeOf(left, right, value)
  {
    forall form | Spelling(value, form)
      ensures Free(left, right, form)
    {
      SpellingLength(value, form);
      ShortIsFree(left, right, form);
    }
  }

  /** An occurrence outside the middle lies in a half. */
  lemma OutsideMiddle(left: Bytes, middle: Bytes, right: Bytes, w: Bytes, i: nat)
    requires Free(left, right, w) && w != [] && OccursAt(left + middle + right, w, i)
    ensures i < |left| + |middle| && i + |w| > |left|
  {
    var s := left + middle + right;
    assert s[|left| + |middle|..] == right;
    if i + |w| <= |left| {
      OccursInPrefix(left, s, w, i);
    }
    if i >= |left| + |middle| {
      OccursInTail(s, w, |left| + |middle|, i - |left| - |middle|);
    }
  }

  /** A text that neither begins nor ends in `c` and has fewer than `n` of it does not reach into a block of `n`. */
  lemma BlockHides(left: Bytes, right: Bytes, c: Byte, n: nat, w: Bytes)
    requires Free(left, right, w) && Rare(w, c, n)
    ensures !Contains(left + Block(c, n) + right, w)
  {
    var s := left + Block(c, n) + right;
    forall i | 0 <= i <= |s|
      ensures !OccursAt(s, w, i)
    {
      if OccursAt(s, w, i) {
        OutsideMiddle(left, Block(c, n), right, w, i);
        assert w[0] == s[i] && w[|w| - 1] == s[i + |w| - 1];
        assert i <= |left| && i + |w| > |left| + n;
        var k := |left| - i;
        forall j | k <= j < k + n
          ensures w[j] == c
        {
          assert w[j] == s[i + j];
        }
        CountRun(w, k, c, n);
      }
    }
  }

  /** Four bytes that no spelling but the plain and the JSON one uses. */
  predicate Filler(c: Byte) {
    39 <= c as int <= 42
  }

  /** So are the brackets of the mask. */
  predicate Foreign(c: Byte) {
    Filler(c) || c == '[' || c == ']'
  }

  lemma PickFiller(x: Byte, y: Byte, z: Byte) returns (c: Byte)
    ensures Filler(c) && c != x && c != y && c != z
  {
    c := if '(' != x && '(' != y && '(' != z then '('
         else if ')' != x && ')' != y && ')' != z then ')'
         else if '*' != x && '*' != y && '*' != z then '*'
         else '\'';
  }

  lemma PercentAvoidsForeign(v: Bytes, c: Byte)
    requires Foreign(c)
    ensures c !in Each(v, PercentUpper) && c !in Each(v, PercentLower)
    ensures c !in Each(Each(v, PercentUpper), PercentUpper)
  {
    EachAvoids(v, PercentUpper, c);
    EachAvoids(v, PercentLower, c);
    EachAvoids(Each(v, PercentUpper), PercentUpper, c);
  }

  lemma DigitsAvoidForeign(b: Byte, c: Byte)
    requires Foreign(c)
    ensures c !in Hex2(b, 'a') && c !in Hex2(b, 'A') && c !in Decimal(b as int)
  {
  }

  lemma HexAvoidsForeign(v: Bytes, c: Byte)
    requires Foreign(c)
    ensures c !in Each(v, HexLower) && c !in Each(v, HexUpper) && c !in Each(v, UnicodeEscape)
  {
    forall b
      ensures c !in HexLower(b) && c !in HexUpper(b) && c !in UnicodeEscape(b)
    {
      DigitsAvoidForeign(b, c);
    }
    EachAvoids(v, HexLower, c);
    EachAvoids(v, HexUpper, c);
    EachAvoids(v, UnicodeEscape, c);
  }

  lemma HtmlAvoidsForeign(v: Bytes, c: Byte)
    requires Foreign(c)
    ensures c !in Each(v, HtmlDecimal) && c !in Each(v, HtmlHex)
  {
    forall b
      ensures c !in HtmlDecimal(b) && c !in HtmlHex(b)
    {
      DigitsAvoidForeign(b, c);
    }
    EachAvoids(v, HtmlDecimal, c);
    EachAvoids(v, HtmlHex, c);
  }

  lemma Base64AvoidsForeign(v: Bytes, c: Byte)
    requires Foreign(c)
    ensures c !in Base64.Standard(v) && c !in Base64.UrlSafe(v)
  {
  }

  lemma EachEnds(s: Bytes, spell: Byte -> Bytes)
    requires s != [] && forall b :: spell(b) != []
    ensures var t, first, last := Each(s, spell), spell(s[0]), spell(s[|s| - 1]);
            |t| >= |s| && t[0] == first[0] && t[|t| - 1] == last[|last| - 1]
  {
    var before, b := s[..|s| - 1], s[|s| - 1];
    EachLength(s, spell, 1);
    EachSnoc(before, b, spell);
    assert before + [b] == s;
    var t, last := Each(s, spell), spell(b);
    assert t == Each(before, spell) + last;
    assert t[|t| - 1] == last[|last| - 1];
  }

  lemma JsonByteKeepsFiller(b: Byte, c: Byte)
    requires Filler(c)
    ensures Count(JsonEscape(b), c) == if b == c then 1 else 0
    ensures b != c ==> JsonEscape(b)[0] != c && JsonEscape(b)[|JsonEscape(b)| - 1] != c
  {
    if JsonEscape(b) == [b] {
      assert [b][1..] == [];
    } else {
      CountAtMost(JsonEscape(b), c);
    }
  }

  lemma JsonKeepsFiller(v: Bytes, c: Byte)
    requires Filler(c) && v != [] && v[0] != c && v[|v| - 1] != c
    ensures var w := Each(v, JsonEscape);
            |w| >= |v| && w[0] != c && w[|w| - 1] != c && Count(w, c) == Count(v, c)
  {
    EachEnds(v, JsonEscape);
    forall b
      ensures Count(JsonEscape(b), c) == if b == c then 1 else 0
    {
      JsonByteKeepsFiller(b, c);
    }
    JsonByteKeepsFiller(v[0], c);
    JsonByteKeepsFiller(v[|v| - 1], c);
    CountEach(v, JsonEscape, c);
  }

  lemma EncodersAvoidForeign(v: Bytes, c: Byte, form: Bytes)
    requires Foreign(c) && Spelling(v, form) && form != v && form != Each(v, JsonEscape)
    ensures c !in form
  {
    PercentAvoidsForeign(v, c);
    HexAvoidsForeign(v, c);
    HtmlAvoidsForeign(v, c);
    Base64AvoidsForeign(v, c);
  }

  lemma CountBelow(v: Bytes, c: Byte)
    requires v != [] && v[0] != c
    ensures Count(v, c) < |v|
  {
    CountAtMost(v[1..], c);
  }

  lemma AvoidedIsRare(form: Bytes, c: Byte)
    requires form != [] && c !in form
    ensures form[0] != c && form[|form| - 1] != c && Count(form, c) == 0
  {
    CountAtMost(form, c);
  }

  lemma EncodedIsRare(v: Bytes, c: Byte, form: Bytes)
    requires Filler(c) && v != [] && Spelling(v, form) && form != v && form != Each(v, JsonEscape)
    ensures Rare(form, c, |v|)
  {
    SpellingLength(v, form);
    EncodersAvoidForeign(v, c, form);
    AvoidedIsRare(form, c);
  }

  lemma FillerIsRare(v: Bytes, c: Byte, form: Bytes)
    requires Filler(c) && v != [] && v[0] != c && v[|v| - 1] != c && Spelling(v, form)
    ensures Rare(form, c, |v|)
  {
    CountBelow(v, c);
    if form == v {
      assert Rare(v, c, |v|);
    } else if form == Each(v, JsonEscape) {
      JsonKeepsFiller(v, c);
      assert Rare(Each(v, JsonEscape), c, |v|);
    } else {
      EncodedIsRare(v, c, form);
    }
  }

  /** No spelling of `v` occurs around a block of a filler that `v` neither begins nor ends with. */
  lemma SpellingsHidden(v: Bytes, c: Byte, left: Bytes, right: Bytes, form: Bytes)
    requires Filler(c) && v != [] && v[0] != c && v[|v| - 1] != c
    requires Spelling(v, form) && Free(left, right, form)
    ensures !Contains(left + Block(c, |v|) + right, form)
  {
    FillerIsRare(v, c, form);
    BlockHides(left, right, c, |v|, form);
  }

  lemma {:induction false} JsonKeepsBlock(c: Byte, n: nat)
    requires Filler(c)
    ensures Each(Block(c, n), JsonEscape) == Block(c, n)
  {
    if n > 0 {
      assert Block(c, n)[1..] == Block(c, n - 1);
      JsonKeepsBlock(c, n - 1);
    }
  }

  lemma EachBlockClear(c: Byte, n: nat, spell: Byte -> Bytes)
    requires n > 0 && |spell(c)| > 1 && spell(c)[0] !in "CREDENTIAL"
    requires forall b :: |spell(b)| > 0 && '[' !in spell(b) && ']' !in spell(b)
    ensures |Each(Block(c, n), spell)| > n && !Clash(Each(Block(c, n), spell), REDACTED)
  {
    var p := Block(c, n);
    EachAvoids(p, spell, '[');
    EachAvoids(p, spell, ']');
    EachLength(p[1..], spell, 1);
    assert p[0] == c && Each(p, spell) == spell(c) + Each(p[1..], spell);
    OutsideMask(Each(p, spell), 0);
  }

  lemma DoublePercentOfBlock(c: Byte, n: nat)
    requires Filler(c) && n > 0
    ensures var double := Each(Each(Block(c, n), PercentUpper), PercentUpper);
            |double| > n && !Clash(double, REDACTED)
  {
    var url := Each(Block(c, n), PercentUpper);
    EachBlockClear(c, n, PercentUpper);
    assert url[0] == PercentUpper(Block(c, n)[0])[0] == '%';
    EachLength(url, PercentUpper, 1);
    EachAvoids(url, PercentUpper, '[');
    EachAvoids(url, PercentUpper, ']');
    assert Each(url, PercentUpper)[0] == PercentUpper(url[0])[0] == '%';
    OutsideMask(Each(url, PercentUpper), 0);
  }

  lemma Base64OfBlock(c: Byte, n: nat)
    requires Filler(c) && n > 0
    ensures |Base64.Standard(Block(c, n))| > n && !Clash(Base64.Standard(Block(c, n)), REDACTED)
    ensures |Base64.UrlSafe(Block(c, n))| > n && !Clash(Base64.UrlSafe(Block(c, n)), REDACTED)
  {
    var p := Block(c, n);
    var standard, urlSafe := Base64.Standard(p), Base64.UrlSafe(p);
    SextetsLength(p);
    assert p[0] == c && Base64.Sextets(p)[0] == c as int / 4;
    assert standard[0] == urlSafe[0] == Base64.Letter(c as int / 4, '+', '/');
    OutsideMask(standard, 0);
    OutsideMask(urlSafe, 0);
  }

  lemma HexOfBlock(c: Byte, n: nat)
    requires Filler(c) && n > 0
    ensures |Each(Block(c, n), HexLower)| > n && !Clash(Each(Block(c, n), HexLower), REDACTED)
    ensures |Each(Block(c, n), HexUpper)| > n && !Clash(Each(Block(c, n), HexUpper), REDACTED)
  {
    EachBlockClear(c, n, HexLower);
    EachBlockClear(c, n, HexUpper);
  }

  lemma EscapesOfBlock(c: Byte, n: nat)
    requires Filler(c) && n > 0
    ensures |Each(Block(c, n), UnicodeEscape)| > n && !Clash(Each(Block(c, n), UnicodeEscape), REDACTED)
    ensures |Each(Block(c, n), HtmlDecimal)| > n && !Clash(Each(Block(c, n), HtmlDecimal), REDACTED)
    ensures |Each(Block(c, n), HtmlHex)| > n && !Clash(Each(Block(c, n), HtmlHex), REDACTED)
  {
    EachBlockClear(c, n, UnicodeEscape);
    EachBlockClear(c, n, HtmlDecimal);
    EachBlockClear(c, n, HtmlHex);
  }

  lemma PercentOfBlock(c: Byte, n: nat)
    requires Filler(c) && n > 0
    ensures |Each(Block(c, n), PercentUpper)| > n && !Clash(Each(Block(c, n), PercentUpper), REDACTED)
    ensures |Each(Block(c, n), PercentLower)| > n && !Clash(Each(Block(c, n), PercentLower), REDACTED)
  {
    EachBlockClear(c, n, PercentUpper);
    EachBlockClear(c, n, PercentLower);
  }

  /** A spelling of a block, other than the block itself, is longer and cannot overlap a mask. */
  lemma BlockSpellingsClear(c: Byte, n: nat, form: Bytes)
    requires Filler(c) && n > 0 && Spelling(Block(c, n), form) && form != Block(c, n)
    ensures |form| > n && !Clash(form, REDACTED)
  {
    JsonKeepsBlock(c, n);
    PercentOfBlock(c, n);
    DoublePercentOfBlock(c, n);
    HexOfBlock(c, n);
    Base64OfBlock(c, n);
    EscapesOfBlock(c, n);
  }

  lemma OverMask(left: Bytes, r: Bytes, right: Bytes, v: Bytes, i: nat)
    requires i <= |left| < i + |v| && OccursAt(left + r + right, v, i)
    ensures Agree(v[|left| - i..], r)
  {
    var s, k := left + r + right, |left| - i;
    assert v[k..] == s[i..i + |v|][k..] == s[|left|..i + |v|];
    assert s[|left|..] == r + right;
  }

  /** What cannot overlap a mask and is in neither half does not occur around one. */
  lemma NoRoom(left: Bytes, r: Bytes, right: Bytes, form: Bytes)
    requires form != [] && Free(left, right, form) && !Clash(form, r)
    ensures !Contains(left + r + right, form)
  {
    var s := left + r + right;
    if i :| 0 <= i <= |s| && OccursAt(s, form, i) {
      OutsideMiddle(left, r, right, form, i);
      if i <= |left| {
        OverMask(left, r, right, form, i);
      } else {
        OccursInTail(s, form, |left|, i - |left|);
        assert s[|left|..] == r + right;
        NotOnMask(right, r, form, i - |left|);
      }
    }
  }

  lemma BlockFirst(left: Bytes, c: Byte, n: nat)
    requires !Contains(left, Block(c, n)) && (left != [] ==> left[|left| - 1] != c)
    ensures FirstAt(left + Block(c, n), Block(c, n), |left|)
  {
    var p := Block(c, n);
    var s := left + p;
    forall j | 0 <= j < |left|
      ensures !OccursAt(s, p, j)
    {
      if j + n <= |left| {
        OccursInPrefix(left, s, p, j);
      } else {
        assert s[j..j + n][|left| - 1 - j] == left[|left| - 1];
      }
    }
  }

  lemma BlockFound(left: Bytes, right: Bytes, c: Byte, n: nat, r: Bytes)
    requires n > 0 && Free(left, right, Block(c, n)) && (left != [] ==> left[|left| - 1] != c)
    ensures Replace(left + Block(c, n) + right, Block(c, n), r) == left + r + right
  {
    BlockFirst(left, c, n);
    ReplaceGap(left, right, Block(c, n), r);
    ReplaceAbsent(right, Block(c, n), r);
  }

  lemma PlainFormsDiffer(value: Bytes)
    ensures PlainForms(value)[0] == value
    ensures forall i :: 0 < i < |PlainForms(value)| ==> PlainForms(value)[i] != value
  {
  }

  lemma BlockFormsDiffer(c: Byte, n: nat)
    requires Filler(c) && n > 0
    ensures forall i :: 0 <= i < |RadixForms(Block(c, n))| ==> RadixForms(Block(c, n))[i] != Block(c, n)
    ensures forall i :: 0 <= i < |EscapeForms(Block(c, n))| ==> EscapeForms(Block(c, n))[i] != Block(c, n)
  {
    DoublePercentOfBlock(c, n);
    HexOfBlock(c, n);
    Base64OfBlock(c, n);
    EscapesOfBlock(c, n);
  }

  /** The block is masked first, and no later form repeats it. */
  lemma LaterFormsDiffer(c: Byte, n: nat)
    requires Filler(c) && n > 0
    ensures Forms(Block(c, n))[0] == Block(c, n)
    ensures forall i :: 0 < i < |Forms(Block(c, n))| ==> Forms(Block(c, n))[i] != Block(c, n)
  {
    PlainFormsDiffer(Block(c, n));
    BlockFormsDiffer(c, n);
    OnlyFirstEquals(PlainForms(Block(c, n)), RadixForms(Block(c, n)), EscapeForms(Block(c, n)), Block(c, n));
  }

  lemma OnlyFirstEquals(a: seq<Bytes>, b: seq<Bytes>, c: seq<Bytes>, x: Bytes)
    requires a != [] && a[0] == x && forall i :: 0 < i < |a| ==> a[i] != x
    requires (forall i :: 0 <= i < |b| ==> b[i] != x) && (forall i :: 0 <= i < |c| ==> c[i] != x)
    ensures (a + b + c)[0] == x && forall i :: 0 < i < |a + b + c| ==> (a + b + c)[i] != x
  {
  }

  lemma LaterFormsAbsent(left: Bytes, right: Bytes, c: Byte, n: nat, i: nat)
    requires Filler(c) && n > 0 && 0 < i < |Forms(Block(c, n))| && Free(left, right, Forms(Block(c, n))[i])
    ensures !Contains(left + REDACTED + right, Forms(Block(c, n))[i])
  {
    var form := Forms(Block(c, n))[i];
    LaterFormsDiffer(c, n);
    FormsAreSpellings(Block(c, n), form);
    BlockSpellingsClear(c, n, form);
    NoRoom(left, REDACTED, right, form);
  }

  lemma {:induction false} OnlyFirstMasks(s: Bytes, forms: seq<Bytes>, masked: Bytes)
    requires Nonempty(forms) && forms != [] && Replace(s, forms[0], REDACTED) == masked
    requires forall i :: 0 < i < |forms| ==> !Contains(masked, forms[i])
    ensures MaskAll(s, forms) == masked
  {
    var last := |forms| - 1;
    if last == 0 {
      assert MaskAll(s, forms[..0]) == s;
    } else {
      OnlyFirstMasks(s, forms[..last], masked);
      ReplaceAbsent(masked, forms[last], REDACTED);
    }
  }

  /** Masking the block leaves the mask between the halves, and the block's other spellings change nothing more. */
  lemma BlockMasked(left: Bytes, right: Bytes, c: Byte, n: nat)
    requires Filler(c) && n > 0 && FreeOf(left, right, Block(c, n)) && (left != [] ==> left[|left| - 1] != c)
    ensures Nonempty(Forms(Block(c, n)))
    ensures MaskAll(left + Block(c, n) + right, Forms(Block(c, n))) == left + REDACTED + right
  {
    FormsNonempty(Block(c, n));
    LaterFormsDiffer(c, n);
    BlockFound(left, right, c, n, REDACTED);
    forall i | 0 < i < |Forms(Block(c, n))|
      ensures !Contains(left + REDACTED + right, Forms(Block(c, n))[i])
    {
      FormsAreSpellings(Block(c, n), Forms(Block(c, n))[i]);
      LaterFormsAbsent(left, right, c, n, i);
    }
    OnlyFirstMasks(left + Block(c, n) + right, Forms(Block(c, n)), left + REDACTED + right);
  }

  lemma PairKeepsOrder(v: Bytes, p: Bytes)
    requires |v| == |p|
    ensures LongestFirst([v, p]) == [v, p]
  {
    var ranked := Scrub.Ranked([v, p]);
    var first := Scrub.Ranked([v]);
    assert ranked[..1] == first && first[..0] == [];
    assert Sort(first) == [first[0]];
    assert Sort(ranked) == Insert([first[0]], ranked[1]) == [first[0]] + Insert([first[0]][1..], ranked[1]);
    assert Sort(ranked) == ranked;
  }

  lemma PairConcat(v: Bytes, p: Bytes, forms: Bytes -> seq<Bytes>)
    ensures Concat([v, p], forms) == forms(v) + forms(p)
  {
    assert [v, p][..1] == [v] && [v][..0] == [];
    assert Concat([v], forms) == [] + forms(v);
  }

  lemma PairMasked(body: Bytes, v: Bytes, p: Bytes, forms: Bytes -> seq<Bytes>)
    requires Nonempty(forms(v)) && Nonempty(forms(p))
    ensures Nonempty(Concat([v, p], forms))
    ensures MaskAll(body, Concat([v, p], forms)) == MaskAll(MaskAll(body, forms(v)), forms(p))
  {
    PairConcat(v, p, forms);
    MaskAppend(body, forms(v), forms(p));
  }

  lemma PairScrubbed(body: Bytes, v: Bytes, p: Bytes)
    requires v != [] && |v| == |p|
    ensures Nonempty(Forms(v)) && Nonempty(Forms(p))
    ensures Scrubbed(body, [v, p]) == MaskAll(MaskAll(body, Forms(v)), Forms(p))
  {
    FormsNonempty(v);
    FormsNonempty(p);
    PairKeepsOrder(v, p);
    PairMasked(body, v, p, FormsOf);
  }

  /** Scrubbing a block of filler between two halves puts a mask between them. */
  lemma HalvesJoined(v: Bytes, c: Byte, left: Bytes, right: Bytes)
    requires Filler(c) && v != [] && v[0] != c && v[|v| - 1] != c && (left != [] ==> left[|left| - 1] != c)
    requires FreeOf(left, right, v) && FreeOf(left, right, Block(c, |v|))
    ensures Scrubbed(left + Block(c, |v|) + right, [v, Block(c, |v|)]) == left + REDACTED + right
  {
    PairScrubbed(left + Block(c, |v|) + right, v, Block(c, |v|));
    UnmaskedBySpellings(v, c, left, right);
    BlockMasked(left, right, c, |v|);
  }

  /** A secret that can overlap a mask survives in some body, next to some other secret. */
  lemma ClashingSecretSurvives(v: Bytes) returns (body: Bytes, other: Bytes)
    requires v != [] && Clash(v, REDACTED)
    ensures Contains(Scrubbed(body, [v, other]), v)
  {
    var left, right, _ := ClashSplits(v, REDACTED);
    var n := |v|;
    var c := PickFiller(v[0], v[n - 1], if left == [] then v[0] else left[|left| - 1]);
    other := Block(c, n);
    body := left + other + right;
    ShortIsFreeOf(left, right, v);
    ShortIsFreeOf(left, right, other);
    HalvesJoined(v, c, left, right);
  }

  lemma UnmaskedBySpellings(v: Bytes, c: Byte, left: Bytes, right: Bytes)
    requires Filler(c) && v != [] && v[0] != c && v[|v| - 1] != c && FreeOf(left, right, v)
    ensures Nonempty(Forms(v)) && MaskAll(left + Block(c, |v|) + right, Forms(v)) == left + Block(c, |v|) + right
  {
    var body, forms := left + Block(c, |v|) + right, Forms(v);
    FormsNonempty(v);
    forall i | 0 <= i < |forms|
      ensures !Contains(body, forms[i])
    {
      FormsAreSpellings(v, forms[i]);
      SpellingsHidden(v, c, left, right, forms[i]);
    }
    MaskAbsent(body, forms);
  }

  /** Scrubbing hides a secret from every response exactly when the secret cannot overlap a mask. */
  lemma HiddenIffNoClash(v: Bytes)
    requires v != []
    ensures (forall body, secrets :: v in secrets ==> !Contains(Scrubbed(body, secrets), v)) <==> !Clash(v, REDACTED)
  {
    if Clash(v, REDACTED) {
      var body, other := ClashingSecretSurvives(v);
      assert v in [v, other];
    } else {
      forall body, secrets | v in secrets
        ensures !Contains(Scrubbed(body, secrets), v)
      {
        NoSpellingSurvives(body, secrets, v, v);
      }
    }
  }

  /** A text that is part of a mask survives wherever anything is masked. */
  lemma PartOfMaskSurvives(secret: Bytes, form: Bytes) returns (body: Bytes, other: Bytes)
    requires secret != [] && Contains(REDACTED, form)
    ensures Contains(Scrubbed(body, [secret, other]), form)
  {
    var c := PickFiller(secret[0], secret[|secret| - 1], secret[0]);
    other := Block(c, |secret|);
    body := [] + other + [];
    ShortIsFreeOf([], [], secret);
    ShortIsFreeOf([], [], other);
    HalvesJoined(secret, c, [], []);
    assert [] + REDACTED + [] == REDACTED;
  }

  lemma PartOfWordIsPartOfMask(form: Bytes)
    requires Contains("CREDENTIAL", form)
    ensures Contains(REDACTED, form)
  {
    var word: Bytes := "CREDENTIAL";
    var i :| 0 <= i <= |word| && OccursAt(word, form, i);
    assert REDACTED[1..] == word + [']'];
    OccursInPrefix(word, word + [']'], form, i);
    OccursInTail(REDACTED, form, 1, i);
  }

  /** Only the plain and the JSON spelling can have brackets. */
  lemma BracketsInPlainOrJson(secret: Bytes, form: Bytes)
    requires Spelling(secret, form) && ('[' in form || ']' in form)
    ensures form == secret || form == Each(secret, JsonEscape)
  {
    if form != secret && form != Each(secret, JsonEscape) {
      EncodersAvoidForeign(secret, '[', form);
      EncodersAvoidForeign(secret, ']', form);
    }
  }

  /**
   * A spelling without brackets is hidden in every response if and only if it is no part of the word
   * in the mask.
   */
  lemma SpellingHiddenIff(secret: Bytes, form: Bytes)
    requires secret != [] && Spelling(secret, form) && '[' !in form && ']' !in form
    ensures (forall body, secrets :: secret in secrets ==> !Contains(Scrubbed(body, secrets), form))
            <==> !Contains("CREDENTIAL", form)
  {
    if Contains("CREDENTIAL", form) {
      PartOfWordIsPartOfMask(form);
      var body, other := PartOfMaskSurvives(secret, form);
      assert secret in [secret, other];
    } else {
      PlainTextsDoNotClash(form);
      forall body, secrets | secret in secrets
        ensures !Contains(Scrubbed(body, secrets), form)
      {
        NoSpellingSurvives(body, secrets, secret, form);
      }
    }
  }
}
