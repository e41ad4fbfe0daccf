/**
 * Masking a pattern in a text (the `replace` calls of arbiter-credential/src/inject.rs). Texts are
 * UTF-8 byte strings; a character stands for the byte with its code.
 */
module Masking {
  type Byte = c: char | c as int < 256

  type Bytes = seq<Byte>

  predicate OccursAt(s: Bytes, v: Bytes, i: nat) {
    i + |v| <= |s| && s[i..i + |v|] == v
  }

  predicate Contains(s: Bytes, v: Bytes) {
    exists i :: 0 <= i <= |s| && OccursAt(s, v, i)
  }

  /** Every occurrence of `p`, taken leftmost first and without overlap, replaced by `r`. */
  function Replace(s: Bytes, p: Bytes, r: Bytes): Bytes
    requires p != []
  {
    if s == [] then []
    else if p <= s then r + Replace(s[|p|..], p, r)
    else [s[0]] + Replace(s[1..], p, r)
  }

  // ---------------------------------------------------------------------------
  // What replacing means, without saying how to scan
  // ---------------------------------------------------------------------------

  ghost function Join(gaps: seq<Bytes>, separator: Bytes): Bytes
    requires gaps != []
  {
    if |gaps| == 1 then gaps[0] else gaps[0] + separator + Join(gaps[1..], separator)
  }

  ghost predicate FirstAt(s: Bytes, v: Bytes, i: nat) {
    OccursAt(s, v, i) && forall j :: 0 <= j < i ==> !OccursAt(s, v, j)
  }

  /** The text is the gaps joined by `p`, each `p` the first after the one before; the result joins them by the mask. */
  ghost predicate Masks(s: Bytes, p: Bytes, r: Bytes, out: Bytes, gaps: seq<Bytes>) {
    && gaps != []
    && s == Join(gaps, p)
    && out == Join(gaps, r)
    && Separates(p, gaps)
  }

  ghost predicate Separates(p: Bytes, gaps: seq<Bytes>)
    requires gaps != []
  {
    if |gaps| == 1 then !Contains(gaps[0], p)
    else FirstAt(gaps[0] + p, p, |gaps[0]|) && Separates(p, gaps[1..])
  }

  lemma OccursInTail(s: Bytes, v: Bytes, d: nat, i: nat)
    requires d <= |s|
    ensures OccursAt(s[d..], v, i) <==> OccursAt(s, v, d + i)
  {
    if d + i + |v| <= |s| {
      assert s[d..][i..i + |v|] == s[d + i..d + i + |v|];
    }
  }

  lemma OccursInPrefix(s: Bytes, t: Bytes, v: Bytes, i: nat)
    requires s <= t && i + |v| <= |s|
    ensures OccursAt(s, v, i) <==> OccursAt(t, v, i)
  {
    assert s[i..i + |v|] == t[i..i + |v|];
  }

  lemma FirstAtTail(s: Bytes, p: Bytes, i: nat)
    requires s != [] && i > 0
    ensures FirstAt(s, p, i) <==> !OccursAt(s, p, 0) && FirstAt(s[1..], p, i - 1)
  {
    forall j | 0 < j
      ensures OccursAt(s, p, j) <==> OccursAt(s[1..], p, j - 1)
    {
      OccursInTail(s, p, 1, j - 1);
    }
    if FirstAt(s, p, i) {
      forall j | 0 <= j < i - 1
        ensures !OccursAt(s[1..], p, j)
      {
        assert !OccursAt(s, p, j + 1);
      }
    }
  }

  lemma {:induction false} ReplaceAbsent(s: Bytes, p: Bytes, r: Bytes)
    requires p != [] && !Contains(s, p)
    ensures Replace(s, p, r) == s
  {
    if s != [] {
      assert !OccursAt(s, p, 0);
      forall i | 0 <= i <= |s[1..]|
        ensures !OccursAt(s[1..], p, i)
      {
        assert !OccursAt(s, p, i + 1);
      }
      ReplaceAbsent(s[1..], p, r);
    }
  }

  lemma {:induction false} ReplaceGap(gap: Bytes, rest: Bytes, p: Bytes, r: Bytes)
    requires p != [] && FirstAt(gap + p, p, |gap|)
    ensures Replace(gap + p + rest, p, r) == gap + r + Replace(rest, p, r)
  {
    var s := gap + p + rest;
    if gap == [] {
      assert p <= s && s[|p|..] == rest && gap + r == r;
    } else {
      var gap' := gap[1..];
      OccursInPrefix(gap + p, s, p, 0);
      FirstAtTail(gap + p, p, |gap|);
      assert (gap + p)[1..] == gap' + p && s[1..] == gap' + p + rest;
      ReplaceGap(gap', rest, p, r);
      FirstOff(gap, r, Replace(rest, p, r));
    }
  }

  lemma FirstOff(a: Bytes, b: Bytes, c: Bytes)
    requires a != []
    ensures [a[0]] + (a[1..] + b + c) == a + b + c
  {
  }

  /** Whatever splits the text that way is the result of replacing. */
  lemma {:induction false} MasksOnlyReplace(s: Bytes, p: Bytes, r: Bytes, out: Bytes, gaps: seq<Bytes>)
    requires p != [] && Masks(s, p, r, out, gaps)
    ensures out == Replace(s, p, r)
    decreases |gaps|
  {
    if |gaps| == 1 {
      ReplaceAbsent(s, p, r);
    } else {
      var rest := gaps[1..];
      ReplaceGap(gaps[0], Join(rest, p), p, r);
      MasksOnlyReplace(Join(rest, p), p, r, Join(rest, r), rest);
    }
  }

  /** And replacing splits the text that way. */
  lemma {:induction false} ReplaceMasks(s: Bytes, p: Bytes, r: Bytes) returns (gaps: seq<Bytes>)
    requires p != []
    ensures Masks(s, p, r, Replace(s, p, r), gaps)
    decreases |s|
  {
    if s == [] {
      gaps := [[]];
      assert !OccursAt(s, p, 0);
    } else if p <= s {
      var more := ReplaceMasks(s[|p|..], p, r);
      gaps := [[]] + more;
      EmptyFirstGap(s[|p|..], p, r, Replace(s[|p|..], p, r), more);
      assert s == p + s[|p|..];
    } else {
      var more := ReplaceMasks(s[1..], p, r);
      gaps := [[s[0]] + more[0]] + more[1..];
      assert s == [s[0]] + s[1..] && !OccursAt(s, p, 0);
      LongerFirstGap(s[0], s[1..], p, r, Replace(s[1..], p, r), more);
    }
  }

  lemma EmptyFirstGap(s: Bytes, p: Bytes, r: Bytes, out: Bytes, more: seq<Bytes>)
    requires p != [] && Masks(s, p, r, out, more)
    ensures Masks(p + s, p, r, r + out, [[]] + more)
  {
    var gaps: seq<Bytes> := [[]] + more;
    assert gaps[1..] == more && gaps[0] == [];
    assert gaps[0] + p == p && gaps[0] + r == r && FirstAt(p, p, 0);
  }

  lemma JoinLongerFirst(c: Byte, more: seq<Bytes>, gaps: seq<Bytes>, separator: Bytes)
    requires more != [] && gaps == [[c] + more[0]] + more[1..]
    ensures Join(gaps, separator) == [c] + Join(more, separator)
  {
    assert gaps[1..] == more[1..];
  }

  lemma LongerLastGap(t: Bytes, p: Bytes)
    requires t != [] && !OccursAt(t, p, 0) && !Contains(t[1..], p)
    ensures !Contains(t, p)
  {
    forall j | 0 < j <= |t|
      ensures !OccursAt(t, p, j)
    {
      OccursInTail(t, p, 1, j - 1);
    }
  }

  lemma LongerFirstGap(c: Byte, s: Bytes, p: Bytes, r: Bytes, out: Bytes, more: seq<Bytes>)
    requires p != [] && Masks(s, p, r, out, more) && !OccursAt([c] + s, p, 0)
    ensures Masks([c] + s, p, r, [c] + out, [[c] + more[0]] + more[1..])
  {
    var gaps := [[c] + more[0]] + more[1..];
    JoinLongerFirst(c, more, gaps, p);
    JoinLongerFirst(c, more, gaps, r);
    assert gaps[1..] == more[1..];
    if |more| == 1 {
      assert ([c] + s)[1..] == s;
      LongerLastGap([c] + s, p);
    } else {
      LongerFirstFound(c, s, more[0], Join(more[1..], p), p);
    }
  }

  lemma LongerFirstFound(c: Byte, s: Bytes, gap: Bytes, rest: Bytes, p: Bytes)
    requires FirstAt(gap + p, p, |gap|) && s == gap + p + rest && !OccursAt([c] + s, p, 0)
    ensures FirstAt([c] + gap + p, p, |gap| + 1)
  {
    var t := [c] + gap + p;
    assert t[1..] == gap + p && [c] + s == t + rest;
    OccursInPrefix(t, [c] + s, p, 0);
    FirstAtTail(t, p, |gap| + 1);
  }

  // ---------------------------------------------------------------------------
  // What a mask can bring back
  // ---------------------------------------------------------------------------

  /** One of the two begins the other. */
  predicate Agree(a: Bytes, b: Bytes) {
    a <= b || b <= a
  }

  /** Some occurrence of `v` could overlap a mask. */
  predicate Clash(v: Bytes, r: Bytes) {
    || (exists k :: 0 <= k < |v| && Agree(v[k..], r))
    || (exists j :: 0 <= j < |r| && Agree(v, r[j..]))
  }

  lemma {:induction false} PrefixSurvives(s: Bytes, p: Bytes, r: Bytes, v: Bytes, k: nat)
    requires p != [] && k <= |v| && !Clash(v, r) && v[k..] <= Replace(s, p, r)
    ensures v[k..] <= s
    decreases |s|
  {
    var u := v[k..];
    if u != [] {
      assert !Agree(u, r);
      assert u[0] == s[0] && u == [u[0]] + v[k + 1..];
      assert v[k + 1..] <= Replace(s, p, r)[1..];
      PrefixSurvives(s[1..], p, r, v, k + 1);
    }
  }

  lemma NotOnMask(rest: Bytes, r: Bytes, v: Bytes, i: nat)
    requires v != [] && !Clash(v, r) && OccursAt(r + rest, v, i)
    ensures i >= |r| && OccursAt(rest, v, i - |r|)
  {
    var out := r + rest;
    if i < |r| {
      assert v == out[i..i + |v|];
      assert Agree(v, r[i..]);
    }
    assert out[|r|..] == rest;
    if i >= |r| {
      OccursInTail(out, v, |r|, i - |r|);
    }
  }

  /** No replacement creates an occurrence of a text that cannot overlap a mask, and its own leaves none. */
  lemma {:induction false} ReplaceCreatesNone(s: Bytes, p: Bytes, r: Bytes, v: Bytes, i: nat)
    requires p != [] && v != [] && !Clash(v, r) && OccursAt(Replace(s, p, r), v, i)
    ensures p != v && Contains(s, v)
    decreases |s|
  {
    var out := Replace(s, p, r);
    if p <= s {
      var rest := s[|p|..];
      NotOnMask(Replace(rest, p, r), r, v, i);
      ReplaceCreatesNone(rest, p, r, v, i - |r|);
      var j :| 0 <= j <= |rest| && OccursAt(rest, v, j);
      OccursInTail(s, v, |p|, j);
    } else if i == 0 {
      PrefixSurvives(s, p, r, v, 0);
      assert OccursAt(s, v, 0);
    } else {
      OccursInTail(out, v, 1, i - 1);
      ReplaceCreatesNone(s[1..], p, r, v, i - 1);
      var j :| 0 <= j <= |s[1..]| && OccursAt(s[1..], v, j);
      OccursInTail(s, v, 1, j);
    }
  }

  /** The halves are the two ends of the text, and what is left out between them is place `k`. */
  predicate EndsAround(v: Bytes, left: Bytes, right: Bytes, k: nat) {
    |left| <= k < |v| - |right| && left == v[..|left|] && right == v[|v| - |right|..]
  }

  lemma SplitWithin(v: Bytes, r: Bytes, k: nat) returns (left: Bytes, right: Bytes)
    requires k < |v| && r != [] && Agree(v[k..], r)
    ensures EndsAround(v, left, right, k) && v[k] == r[0] && OccursAt(left + r + right, v, 0)
  {
    left := v[..k];
    right := if r <= v[k..] then v[k + |r|..] else [];
    assert v[k..] <= r + right && v[k..][0] == v[k];
    assert v == left + v[k..] && left + r + right == left + (r + right);
  }

  lemma SplitAfter(v: Bytes, r: Bytes, j: nat) returns (right: Bytes, k: nat)
    requires v != [] && j < |r| && Agree(v, r[j..])
    ensures EndsAround(v, [], right, k) && OccursAt(r + right, v, j)
    ensures v <= r[j..] || v[k] == r[|r| - 1]
  {
    if r[j..] <= v {
      right, k := v[|r| - j..], |r| - j - 1;
    } else {
      right, k := [], 0;
    }
    assert v <= r[j..] + right && (r + right)[j..] == r[j..] + right;
  }

  /**
   * A replacement between the right halves makes up a text that can overlap it. Unless the text is
   * part of the replacement, one end of the replacement stands in its place.
   */
  lemma ClashSplits(v: Bytes, r: Bytes) returns (left: Bytes, right: Bytes, k: nat)
    requires v != [] && r != [] && Clash(v, r)
    ensures EndsAround(v, left, right, k) && Contains(left + r + right, v)
    ensures (forall i :: 0 <= i < |v| ==> v[i] in r) || v[k] == r[0] || v[k] == r[|r| - 1]
  {
    if i :| 0 <= i < |v| && Agree(v[i..], r) {
      left, right := SplitWithin(v, r, i);
      k := i;
    } else {
      var j :| 0 <= j < |r| && Agree(v, r[j..]);
      left := [];
      right, k := SplitAfter(v, r, j);
      assert left + r == r;
      if v <= r[j..] {
        assert forall i :: 0 <= i < |v| ==> v[i] == r[j + i];
      }
    }
  }

  const REDACTED: Bytes := "[CREDENTIAL]"

  lemma BetweenBrackets(v: Bytes, word: Bytes)
    requires '[' !in v && ']' !in v && !Contains(word, v)
    ensures !Clash(v, ['['] + word + [']'])
  {
    var r := ['['] + word + [']'];
    forall k | 0 <= k < |v|
      ensures !Agree(v[k..], r)
    {
      assert v[k..][0] == v[k] && r[0] == '[';
    }
    assert OccursAt(word, [], 0);
    forall j | 0 <= j < |r|
      ensures !Agree(v, r[j..])
    {
      var tail := r[j..];
      assert tail[|tail| - 1] == r[|r| - 1] == ']' && tail[0] == r[j];
      if v <= tail {
        assert |v| < |tail| && j > 0;
        assert word[j - 1..j - 1 + |v|] == tail[..|v|];
        assert OccursAt(word, v, j - 1);
      }
    }
  }

  /** A text free of brackets that is no part of the word between them cannot overlap a mask. */
  lemma PlainTextsDoNotClash(v: Bytes)
    requires '[' !in v && ']' !in v && !Contains("CREDENTIAL", v)
    ensures !Clash(v, REDACTED)
  {
    BetweenBrackets(v, "CREDENTIAL");
    assert ['['] + "CREDENTIAL" + [']'] == REDACTED;
  }
}
