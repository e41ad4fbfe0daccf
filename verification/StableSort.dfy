/** A stable sort by descending key. */
module StableSort {
  type Ranked<T> = (T, int)

  ghost predicate Sorted<T>(s: seq<Ranked<T>>) {
    forall i, j :: 0 <= i < j < |s| ==> s[i].1 >= s[j].1
  }

  /** The elements with one key, in their order; a stable sort keeps each of these. */
  ghost function WithKey<T>(s: seq<Ranked<T>>, key: int): seq<Ranked<T>> {
    if s == [] then []
    else if s[0].1 == key then [s[0]] + WithKey(s[1..], key)
    else WithKey(s[1..], key)
  }

  ghost predicate SameByKey<T>(s: seq<Ranked<T>>, t: seq<Ranked<T>>) {
    forall key :: WithKey(s, key) == WithKey(t, key)
  }

  function Insert<T(!new)>(s: seq<Ranked<T>>, e: Ranked<T>): (r: seq<Ranked<T>>)
    ensures |r| == |s| + 1
    ensures forall x :: x in r <==> x in s || x == e
  {
    if s == [] then [e]
    else if s[0].1 >= e.1 then [s[0]] + Insert(s[1..], e)
    else [e] + s
  }

  lemma {:induction false} InsertSorted<T(!new)>(s: seq<Ranked<T>>, e: Ranked<T>)
    requires Sorted(s)
    ensures Sorted(Insert(s, e))
  {
    if s != [] && s[0].1 >= e.1 {
      InsertSorted(s[1..], e);
      var rest := Insert(s[1..], e);
      forall x | x in rest
        ensures s[0].1 >= x.1
      {
        if x in s[1..] {
          var k :| 0 <= k < |s[1..]| && s[1..][k] == x;
          assert s[0].1 >= s[k + 1].1;
        }
      }
    }
  }

  lemma {:induction false} NoneWithKey<T>(s: seq<Ranked<T>>, key: int)
    requires forall i :: 0 <= i < |s| ==> s[i].1 < key
    ensures WithKey(s, key) == []
  {
    if s != [] {
      NoneWithKey(s[1..], key);
    }
  }

  lemma {:induction false} InsertWithKey<T(!new)>(s: seq<Ranked<T>>, e: Ranked<T>, key: int)
    requires Sorted(s)
    ensures WithKey(Insert(s, e), key) == WithKey(s, key) + if e.1 == key then [e] else []
  {
    if s == [] {
      assert WithKey([e], key) == if e.1 == key then [e] + WithKey([], key) else WithKey([], key);
    } else if s[0].1 >= e.1 {
      InsertWithKey(s[1..], e, key);
      assert Insert(s, e)[1..] == Insert(s[1..], e);
    } else {
      assert ([e] + s)[1..] == s;
      if e.1 == key {
        NoneWithKey(s, key);
      }
    }
  }

  lemma {:induction false} WithKeySnoc<T>(s: seq<Ranked<T>>, e: Ranked<T>, key: int)
    ensures WithKey(s + [e], key) == WithKey(s, key) + if e.1 == key then [e] else []
  {
    if s == [] {
      assert s + [e] == [e];
      assert WithKey([e], key) == if e.1 == key then [e] + WithKey([], key) else WithKey([], key);
    } else {
      assert (s + [e])[1..] == s[1..] + [e];
      WithKeySnoc(s[1..], e, key);
    }
  }

  function Sort<T(!new)>(m: seq<Ranked<T>>): (s: seq<Ranked<T>>)
    ensures |s| == |m|
    ensures forall x :: x in s <==> x in m
  {
    if m == [] then [] else
      var n := |m| - 1;
      assert m == m[..n] + [m[n]];
      Insert(Sort(m[..n]), m[n])
  }

  /** What a library's stable sort promises: descending keys, and elements of one key in their old order. */
  lemma {:induction false} SortIsStable<T(!new)>(m: seq<Ranked<T>>)
    ensures Sorted(Sort(m)) && SameByKey(Sort(m), m)
  {
    if m != [] {
      var n := |m| - 1;
      var s := Sort(m[..n]);
      SortIsStable(m[..n]);
      InsertSorted(s, m[n]);
      forall key
        ensures WithKey(Insert(s, m[n]), key) == WithKey(m, key)
      {
        InsertWithKey(s, m[n], key);
        WithKeySnoc(m[..n], m[n], key);
        assert WithKey(s, key) == WithKey(m[..n], key);
        assert m == m[..n] + [m[n]];
      }
    }
  }

  /** The first element with a key. */
  lemma {:induction false} FirstWithKey<T>(m: seq<Ranked<T>>, key: int) returns (k: nat)
    requires WithKey(m, key) != []
    ensures k < |m| && m[k] == WithKey(m, key)[0] && m[k].1 == key
    ensures forall j :: 0 <= j < k ==> m[j].1 != key
  {
    if m[0].1 == key {
      k := 0;
    } else {
      k := FirstWithKey(m[1..], key);
      k := k + 1;
      forall j | 0 <= j < k
        ensures m[j].1 != key
      {
        if j > 0 {
          assert m[j] == m[1..][j - 1];
        }
      }
    }
  }

  /** The head of the sorted list is the earliest element of the greatest key. */
  lemma SortedHead<T(!new)>(m: seq<Ranked<T>>, s: seq<Ranked<T>>) returns (k: nat)
    requires m != [] && Sorted(s) && SameByKey(s, m) && forall x :: x in s <==> x in m
    ensures s != [] && k < |m| && s[0] == m[k]
    ensures forall j :: 0 <= j < |m| ==> m[j].1 < m[k].1 || (m[j].1 == m[k].1 && k <= j)
  {
    assert m[0] in s;
    assert WithKey(s, s[0].1)[0] == s[0];
    assert WithKey(s, s[0].1) == WithKey(m, s[0].1);
    k := FirstWithKey(m, s[0].1);
    forall j | 0 <= j < |m|
      ensures m[j].1 <= m[k].1
    {
      assert m[j] in s;
      var i :| 0 <= i < |s| && s[i] == m[j];
    }
  }
}
