/**
 `sort_by_key` on a vector: a stable sort by a numeric key. Modelled by insertion;
 `SortedUnique` shows that with distinct keys no other algorithm could return anything else.
 */
module Sorting {

  ghost predicate Sorted<T>(key: T -> int, s: seq<T>) {
    forall i, j :: 0 <= i < j < |s| ==> key(s[i]) <= key(s[j])
  }

  ghost predicate StrictlySorted<T>(key: T -> int, s: seq<T>) {
    forall i, j :: 0 <= i < j < |s| ==> key(s[i]) < key(s[j])
  }

  ghost predicate DistinctKeys<T>(key: T -> int, s: seq<T>) {
    forall i, j :: 0 <= i < j < |s| ==> key(s[i]) != key(s[j])
  }

  /** Inserts behind every element whose key is not larger, which keeps the sort stable. */
  function Insert<T>(key: T -> int, s: seq<T>, x: T): (r: seq<T>)
    ensures |r| == |s| + 1
  {
    if s == [] || key(s[|s| - 1]) <= key(x) then s + [x]
    else Insert(key, s[..|s| - 1], x) + [s[|s| - 1]]
  }

  function Sort<T>(key: T -> int, s: seq<T>): (r: seq<T>)
    ensures |r| == |s|
  {
    if s == [] then [] else Insert(key, Sort(key, s[..|s| - 1]), s[|s| - 1])
  }

  lemma {:induction false} InsertElements<T>(key: T -> int, s: seq<T>, x: T)
    ensures multiset(Insert(key, s, x)) == multiset(s) + multiset{x}
  {
    if s != [] && key(s[|s| - 1]) > key(x) {
      InsertElements(key, s[..|s| - 1], x);
      assert s == s[..|s| - 1] + [s[|s| - 1]];
    }
  }

  lemma InsertedFrom<T>(key: T -> int, s: seq<T>, x: T, i: nat)
    requires i < |Insert(key, s, x)|
    ensures Insert(key, s, x)[i] in s || Insert(key, s, x)[i] == x
  {
    hide Insert;
    InsertElements(key, s, x);
    var r := Insert(key, s, x);
    assert r[i] in multiset(r);
    assert r[i] in multiset(s) + multiset{x};
  }

  lemma {:induction false} InsertSorted<T>(key: T -> int, s: seq<T>, x: T)
    requires Sorted(key, s)
    ensures Sorted(key, Insert(key, s, x))
  {
    if s != [] && key(s[|s| - 1]) > key(x) {
      var init, last := s[..|s| - 1], s[|s| - 1];
      InsertSorted(key, init, x);
      var r := Insert(key, init, x);
      assert Insert(key, s, x) == r + [last];
      forall i | 0 <= i < |r| ensures key(r[i]) <= key(last) {
        InsertedFrom(key, init, x, i);
      }
    }
  }

  /** Sorting permutes. */
  lemma {:induction false} SortElements<T>(key: T -> int, s: seq<T>)
    ensures multiset(Sort(key, s)) == multiset(s)
  {
    if s != [] {
      SortElements(key, s[..|s| - 1]);
      InsertElements(key, Sort(key, s[..|s| - 1]), s[|s| - 1]);
      assert s == s[..|s| - 1] + [s[|s| - 1]];
    }
  }

  lemma SortMembers<T>(key: T -> int, s: seq<T>)
    ensures forall x :: x in Sort(key, s) <==> x in s
  {
    SortElements(key, s);
    forall x ensures x in Sort(key, s) <==> x in s {
      assert x in Sort(key, s) <==> x in multiset(Sort(key, s));
      assert x in s <==> x in multiset(s);
    }
  }

  lemma {:induction false} SortSorted<T>(key: T -> int, s: seq<T>)
    ensures Sorted(key, Sort(key, s))
  {
    if s != [] {
      SortSorted(key, s[..|s| - 1]);
      InsertSorted(key, Sort(key, s[..|s| - 1]), s[|s| - 1]);
    }
  }

  lemma {:induction false} InsertDistinct<T>(key: T -> int, s: seq<T>, x: T)
    requires DistinctKeys(key, s)
    requires forall y :: y in s ==> key(y) != key(x)
    ensures DistinctKeys(key, Insert(key, s, x))
  {
    if s != [] && key(s[|s| - 1]) > key(x) {
      var init := s[..|s| - 1];
      InsertDistinct(key, init, x);
      var r := Insert(key, init, x);
      forall i | 0 <= i < |r| ensures key(r[i]) != key(s[|s| - 1]) {
        InsertedFrom(key, init, x, i);
      }
    }
  }

  lemma {:induction false} SortDistinct<T>(key: T -> int, s: seq<T>)
    requires DistinctKeys(key, s)
    ensures DistinctKeys(key, Sort(key, s))
  {
    if s != [] {
      var init, x := s[..|s| - 1], s[|s| - 1];
      SortDistinct(key, init);
      SortElements(key, init);
      forall y | y in Sort(key, init) ensures key(y) != key(x) {
        assert y in multiset(Sort(key, init));
        assert y in multiset(init);
      }
      InsertDistinct(key, Sort(key, init), x);
    }
  }

  /** With distinct keys the sorted vector is strictly increasing. */
  lemma SortStrict<T>(key: T -> int, s: seq<T>)
    requires DistinctKeys(key, s)
    ensures StrictlySorted(key, Sort(key, s))
  {
    SortSorted(key, s);
    SortDistinct(key, s);
  }

  /** Two strictly sorted vectors with the same elements are the same vector. */
  lemma {:induction false} SortedUnique<T>(key: T -> int, s: seq<T>, t: seq<T>)
    requires StrictlySorted(key, s) && StrictlySorted(key, t)
    requires forall x :: x in s <==> x in t
    ensures s == t
  {
    assert s != [] ==> s[0] in t;
    assert t != [] ==> t[0] in s;
    if s != [] {
      var m, n := |s| - 1, |t| - 1;
      assert s[m] in t && t[n] in s;
      assert key(s[m]) == key(t[n]);
      assert s[m] == t[n];
      forall x ensures x in s[..m] <==> x in t[..n] {
        if x in s[..m] {
          assert x in t && key(x) < key(s[m]);
        }
        if x in t[..n] {
          assert x in s && key(x) < key(t[n]);
        }
      }
      SortedUnique(key, s[..m], t[..n]);
      assert s == s[..m] + [s[m]] && t == t[..n] + [t[n]];
    }
  }
}
