/** Response scrubbing (arbiter-credential/src/inject.rs): every spelling of every secret is masked. */
module Scrub {
  import opened Common
  import opened Masking
  import opened Encodings
  import opened StableSort
  import Base64

  function When(wanted: bool, form: Bytes): seq<Bytes> {
    if wanted then [form] else []
  }

  // The spellings of a secret in the order they are masked; a repeated one is skipped where the code
  // skips it.

  function PlainForms(value: Bytes): seq<Bytes> {
    var url, urlLower, json := Each(value, PercentUpper), Each(value, PercentLower), Each(value, JsonEscape);
    [value] + When(url != value, url) + When(urlLower != url && urlLower != value, urlLower) + When(json != value, json)
  }

  function RadixForms(value: Bytes): seq<Bytes> {
    var hex, hexUpper := Each(value, HexLower), Each(value, HexUpper);
    var base64, base64url := Base64.Standard(value), Base64.UrlSafe(value);
    [hex] + When(hexUpper != hex, hexUpper) + When(base64 != value, base64)
    + When(base64url != value && base64url != base64, base64url)
  }

  function EscapeForms(value: Bytes): seq<Bytes> {
    var url, unicode := Each(value, PercentUpper), Each(value, UnicodeEscape);
    var doubleUrl := Each(url, PercentUpper);
    var htmlDecimal, htmlHex := Each(value, HtmlDecimal), Each(value, HtmlHex);
    When(unicode != value, unicode) + When(doubleUrl != url, doubleUrl)
    + [htmlDecimal] + When(htmlHex != htmlDecimal, htmlHex)
  }

  function Forms(value: Bytes): seq<Bytes> {
    PlainForms(value) + RadixForms(value) + EscapeForms(value)
  }

  ghost predicate Nonempty(forms: seq<Bytes>) {
    forall i :: 0 <= i < |forms| ==> forms[i] != []
  }

  function MaskAll(s: Bytes, forms: seq<Bytes>): Bytes
    requires Nonempty(forms)
  {
    if forms == [] then s
    else
      var last := |forms| - 1;
      Replace(MaskAll(s, forms[..last]), forms[last], REDACTED)
  }

  ghost predicate Spelling(value: Bytes, form: Bytes) {
    || form == value
    || form == Each(value, PercentUpper) || form == Each(value, PercentLower) || form == Each(value, JsonEscape)
    || form == Each(value, HexLower) || form == Each(value, HexUpper)
    || form == Base64.Standard(value) || form == Base64.UrlSafe(value)
    || form == Each(value, UnicodeEscape) || form == Each(Each(value, PercentUpper), PercentUpper)
    || form == Each(value, HtmlDecimal) || form == Each(value, HtmlHex)
  }

  /** Every spelling of a secret is among the masked ones, and there are no others. */
  lemma FormsAreSpellings(value: Bytes, form: Bytes)
    ensures form in Forms(value) <==> Spelling(value, form)
  {
    InPlainForms(value, form);
    InRadixForms(value, form);
    InEscapeForms(value, form);
    var plain, radix, escape := PlainForms(value), RadixForms(value), EscapeForms(value);
    assert form in plain + radix + escape <==> form in plain || form in radix || form in escape;
  }

  lemma InFour(a: seq<Bytes>, b: seq<Bytes>, c: seq<Bytes>, d: seq<Bytes>, form: Bytes)
    ensures form in a + b + c + d <==> form in a || form in b || form in c || form in d
  {
  }

  lemma InPlainForms(value: Bytes, form: Bytes)
    ensures form in PlainForms(value) <==>
      form == value || form == Each(value, PercentUpper) || form == Each(value, PercentLower) || form == Each(value, JsonEscape)
  {
    var url, urlLower, json := Each(value, PercentUpper), Each(value, PercentLower), Each(value, JsonEscape);
    InFour([value], When(url != value, url), When(urlLower != url && urlLower != value, urlLower), When(json != value, json), form);
  }

  lemma InRadixForms(value: Bytes, form: Bytes)
    ensures form in RadixForms(value) || form == value <==>
      || form == value || form == Each(value, HexLower) || form == Each(value, HexUpper)
      || form == Base64.Standard(value) || form == Base64.UrlSafe(value)
  {
    var hex, hexUpper := Each(value, HexLower), Each(value, HexUpper);
    var base64, base64url := Base64.Standard(value), Base64.UrlSafe(value);
    InFour([hex], When(hexUpper != hex, hexUpper), When(base64 != value, base64),
           When(base64url != value && base64url != base64, base64url), form);
  }

  lemma InEscapeForms(value: Bytes, form: Bytes)
    ensures form in EscapeForms(value) || form == value || form == Each(value, PercentUpper) <==>
      || form == value || form == Each(value, PercentUpper)
      || form == Each(value, UnicodeEscape) || form == Each(Each(value, PercentUpper), PercentUpper)
      || form == Each(value, HtmlDecimal) || form == Each(value, HtmlHex)
  {
    var url, unicode := Each(value, PercentUpper), Each(value, UnicodeEscape);
    var doubleUrl := Each(url, PercentUpper);
    var htmlDecimal, htmlHex := Each(value, HtmlDecimal), Each(value, HtmlHex);
    InFour(When(unicode != value, unicode), When(doubleUrl != url, doubleUrl), [htmlDecimal],
           When(htmlHex != htmlDecimal, htmlHex), form);
  }

  lemma {:induction false} EachLength(s: Bytes, spell: Byte -> Bytes, n: nat)
    requires forall b :: |spell(b)| >= n
    ensures |Each(s, spell)| >= n * |s|
  {
    if s != [] {
      EachLength(s[1..], spell, n);
      assert n * |s| == n + n * |s[1..]|;
    }
  }

  lemma {:induction false} SextetsLength(s: Bytes)
    ensures s != [] ==> |Base64.Sextets(s)| > |s|
  {
    if |s| > 3 {
      SextetsLength(s[3..]);
    }
  }

  lemma SpellingLength(value: Bytes, form: Bytes)
    requires Spelling(value, form)
    ensures |form| >= |value|
  {
    EachLength(value, PercentUpper, 1);
    EachLength(value, PercentLower, 1);
    EachLength(value, JsonEscape, 1);
    EachLength(value, HexLower, 1);
    EachLength(value, HexUpper, 1);
    EachLength(value, UnicodeEscape, 1);
    EachLength(Each(value, PercentUpper), PercentUpper, 1);
    EachLength(value, HtmlDecimal, 1);
    EachLength(value, HtmlHex, 1);
    SextetsLength(value);
  }

  lemma FormsNonempty(value: Bytes)
    requires value != []
    ensures Nonempty(Forms(value))
  {
    forall i | 0 <= i < |Forms(value)|
      ensures Forms(value)[i] != []
    {
      FormsAreSpellings(value, Forms(value)[i]);
      SpellingLength(value, Forms(value)[i]);
    }
  }

  // ---------------------------------------------------------------------------
  // Masking one secret
  // ---------------------------------------------------------------------------

  /** One of the twelve guarded replacements. */
  method MaskForm(scrubbed: Bytes, wanted: bool, form: Bytes, ghost body: Bytes, ghost done: seq<Bytes>)
    returns (r: Bytes, ghost done': seq<Bytes>)
    requires form != [] && Nonempty(done) && scrubbed == MaskAll(body, done)
    ensures done' == done + When(wanted, form)
    ensures r == if wanted then Replace(scrubbed, form, REDACTED) else scrubbed
    ensures Nonempty(done') && r == MaskAll(body, done')
  {
    r, done' := scrubbed, done + When(wanted, form);
    if wanted {
      assert done'[..|done|] == done;
      if Contains(scrubbed, form) {
        r := Replace(scrubbed, form, REDACTED);
      } else {
        ReplaceAbsent(scrubbed, form, REDACTED);
      }
    } else {
      assert done' == done;
    }
  }

  method ScrubPlain(body: Bytes, value: Bytes) returns (scrubbed: Bytes)
    requires value != []
    ensures Nonempty(PlainForms(value)) && scrubbed == MaskAll(body, PlainForms(value))
  {
    SpellingLength(value, Each(value, PercentUpper));
    SpellingLength(value, Each(value, PercentLower));
    SpellingLength(value, Each(value, JsonEscape));
    ghost var done;
    scrubbed, done := MaskForm(body, true, value, body, []);
    var url := UrlEncode(value);
    scrubbed, done := MaskForm(scrubbed, url != value, url, body, done);
    var urlLower := UrlEncodeLower(value);
    scrubbed, done := MaskForm(scrubbed, urlLower != url && urlLower != value, urlLower, body, done);
    var json := Each(value, JsonEscape);
    scrubbed, done := MaskForm(scrubbed, json != value, json, body, done);
  }

  method ScrubRadix(body: Bytes, value: Bytes) returns (scrubbed: Bytes)
    requires value != []
    ensures Nonempty(RadixForms(value)) && scrubbed == MaskAll(body, RadixForms(value))
  {
    SpellingLength(value, Each(value, HexLower));
    SpellingLength(value, Each(value, HexUpper));
    SpellingLength(value, Base64.Standard(value));
    SpellingLength(value, Base64.UrlSafe(value));
    ghost var done;
    var hex := Each(value, HexLower);
    scrubbed, done := MaskForm(body, true, hex, body, []);
    var hexUpper := Each(value, HexUpper);
    scrubbed, done := MaskForm(scrubbed, hexUpper != hex, hexUpper, body, done);
    var base64 := Base64.Base64EncodeValue(value);
    scrubbed, done := MaskForm(scrubbed, base64 != value, base64, body, done);
    var base64url := Base64.Base64UrlEncodeValue(value);
    scrubbed, done := MaskForm(scrubbed, base64url != value && base64url != base64, base64url, body, done);
  }

  method ScrubEscapes(body: Bytes, value: Bytes) returns (scrubbed: Bytes)
    requires value != []
    ensures Nonempty(EscapeForms(value)) && scrubbed == MaskAll(body, EscapeForms(value))
  {
    SpellingLength(value, Each(value, UnicodeEscape));
    SpellingLength(value, Each(Each(value, PercentUpper), PercentUpper));
    SpellingLength(value, Each(value, HtmlDecimal));
    SpellingLength(value, Each(value, HtmlHex));
    ghost var done;
    var unicode := Each(value, UnicodeEscape);
    scrubbed, done := MaskForm(body, unicode != value, unicode, body, []);
    var url := UrlEncode(value);
    var doubleUrl := UrlEncode(url);
    scrubbed, done := MaskForm(scrubbed, doubleUrl != url, doubleUrl, body, done);
    var htmlDecimal := Each(value, HtmlDecimal);
    scrubbed, done := MaskForm(scrubbed, true, htmlDecimal, body, done);
    var htmlHex := Each(value, HtmlHex);
    scrubbed, done := MaskForm(scrubbed, htmlHex != htmlDecimal, htmlHex, body, done);
  }

  method ScrubSingleValue(body: Bytes, value: Bytes) returns (scrubbed: Bytes)
    requires value != []
    ensures Nonempty(Forms(value)) && scrubbed == MaskAll(body, Forms(value))
  {
    var plain := ScrubPlain(body, value);
    var radix := ScrubRadix(plain, value);
    MaskAppend(body, PlainForms(value), RadixForms(value));
    scrubbed := ScrubEscapes(radix, value);
    MaskAppend(body, PlainForms(value) + RadixForms(value), EscapeForms(value));
  }

  lemma {:induction false} MaskAppend(s: Bytes, a: seq<Bytes>, b: seq<Bytes>)
    requires Nonempty(a) && Nonempty(b)
    ensures Nonempty(a + b) && MaskAll(s, a + b) == MaskAll(MaskAll(s, a), b)
    decreases |b|
  {
    if b == [] {
      assert a + b == a;
    } else {
      var last := |b| - 1;
      MaskAppend(s, a, b[..last]);
      assert (a + b)[..|a + b| - 1] == a + b[..last] && (a + b)[|a + b| - 1] == b[last];
    }
  }

  // ---------------------------------------------------------------------------
  // Masking them all
  // ---------------------------------------------------------------------------

  function Ranked(secrets: seq<Bytes>): seq<StableSort.Ranked<Bytes>> {
    seq(|secrets|, i requires 0 <= i < |secrets| => (secrets[i], |secrets[i]|))
  }

  function Values(ranked: seq<StableSort.Ranked<Bytes>>): seq<Bytes> {
    seq(|ranked|, i requires 0 <= i < |ranked| => ranked[i].0)
  }

  function LongestFirst(secrets: seq<Bytes>): seq<Bytes> {
    Values(Sort(Ranked(secrets)))
  }

  /** The secrets and no others, none before a longer one. */
  lemma LongestFirstOrder(secrets: seq<Bytes>)
    ensures |LongestFirst(secrets)| == |secrets|
    ensures forall x :: x in LongestFirst(secrets) <==> x in secrets
    ensures forall i, j :: 0 <= i < j < |secrets| ==> |LongestFirst(secrets)[i]| >= |LongestFirst(secrets)[j]|
  {
    var ranked := Ranked(secrets);
    var sorted, order := Sort(ranked), LongestFirst(secrets);
    SortIsStable(ranked);
    forall i | 0 <= i < |sorted|
      ensures sorted[i].1 == |order[i]| && order[i] in secrets
    {
      assert sorted[i] in ranked;
      var k :| 0 <= k < |ranked| && ranked[k] == sorted[i];
      assert order[i] == secrets[k];
    }
    forall x | x in secrets
      ensures x in order
    {
      var k :| 0 <= k < |secrets| && secrets[k] == x;
      assert ranked[k] in sorted;
      var i :| 0 <= i < |sorted| && sorted[i] == ranked[k];
      assert order[i] == x;
    }
  }

  /** An empty secret is skipped. */
  function FormsOf(secret: Bytes): seq<Bytes> {
    if secret == [] then [] else Forms(secret)
  }

  function Concat(secrets: seq<Bytes>, forms: Bytes -> seq<Bytes>): seq<Bytes> {
    if secrets == [] then []
    else
      var last := |secrets| - 1;
      Concat(secrets[..last], forms) + forms(secrets[last])
  }

  lemma {:induction false} InConcat(secrets: seq<Bytes>, forms: Bytes -> seq<Bytes>, form: Bytes)
    ensures form in Concat(secrets, forms) <==> exists i :: 0 <= i < |secrets| && form in forms(secrets[i])
  {
    if secrets != [] {
      var last := |secrets| - 1;
      InConcat(secrets[..last], forms, form);
    }
  }

  function AllForms(secrets: seq<Bytes>): seq<Bytes> {
    Concat(secrets, FormsOf)
  }

  lemma {:induction false} AllFormsNonempty(secrets: seq<Bytes>)
    ensures Nonempty(AllForms(secrets))
  {
    if secrets != [] {
      var last := |secrets| - 1;
      AllFormsNonempty(secrets[..last]);
      if secrets[last] != [] {
        FormsNonempty(secrets[last]);
      }
    }
  }

  function Scrubbed(body: Bytes, secrets: seq<Bytes>): Bytes {
    AllFormsNonempty(LongestFirst(secrets));
    MaskAll(body, AllForms(LongestFirst(secrets)))
  }

  method ScrubResponse(body: Bytes, secrets: seq<Bytes>) returns (scrubbed: Bytes)
    ensures scrubbed == Scrubbed(body, secrets)
  {
    var sorted := LongestFirst(secrets);
    scrubbed := body;
    for i := 0 to |sorted|
      invariant Nonempty(AllForms(sorted[..i])) && scrubbed == MaskAll(body, AllForms(sorted[..i]))
    {
      var value := sorted[i];
      AllFormsNonempty(sorted[..i + 1]);
      assert sorted[..i + 1][..i] == sorted[..i];
      if value == [] {
        assert AllForms(sorted[..i + 1]) == AllForms(sorted[..i]);
        continue;
      }
      FormsNonempty(value);
      MaskAppend(body, AllForms(sorted[..i]), Forms(value));
      scrubbed := ScrubSingleValue(scrubbed, value);
    }
    assert sorted[..|sorted|] == sorted;
  }

  // ---------------------------------------------------------------------------
  // No spelling survives
  // ---------------------------------------------------------------------------

  lemma {:induction false} MaskAllCreatesNone(s: Bytes, forms: seq<Bytes>, v: Bytes)
    requires Nonempty(forms) && v != [] && !Clash(v, REDACTED)
    requires v in forms || !Contains(s, v)
    ensures !Contains(MaskAll(s, forms), v)
  {
    if forms != [] {
      var last := |forms| - 1;
      var before := MaskAll(s, forms[..last]);
      if v != forms[last] {
        assert v in forms ==> v in forms[..last];
        MaskAllCreatesNone(s, forms[..last], v);
      }
      if i :| 0 <= i <= |MaskAll(s, forms)| && OccursAt(MaskAll(s, forms), v, i) {
        ReplaceCreatesNone(before, forms[last], REDACTED, v, i);
      }
    }
  }

  /**
   * Scrubbing is complete and stable: no spelling of any secret that cannot overlap a mask is left,
   * whatever the body and whichever other secrets are masked before and after.
   */
  lemma NoSpellingSurvives(body: Bytes, secrets: seq<Bytes>, secret: Bytes, form: Bytes)
    requires secret in secrets && secret != [] && Spelling(secret, form) && !Clash(form, REDACTED)
    ensures !Contains(Scrubbed(body, secrets), form)
  {
    LongestFirstOrder(secrets);
    FormsAreSpellings(secret, form);
    SpellingLength(secret, form);
    InConcat(LongestFirst(secrets), FormsOf, form);
    assert form in FormsOf(secret);
    AllFormsNonempty(LongestFirst(secrets));
    MaskAllCreatesNone(body, AllForms(LongestFirst(secrets)), form);
  }
}
