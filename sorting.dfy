/** Stable sorting by a key, largest first: Python's `list.sort(key=...,
    reverse=True)`, which keeps equal keys in their original order. */
module Sorting {

  ghost predicate SortedDesc<T>(s: seq<T>, key: T -> real) {
    forall i, j :: 0 <= i < j < |s| ==> key(s[i]) >= key(s[j])
  }

  /** The elements whose key is k, in order. */
  function WithKey<T>(s: seq<T>, key: T -> real, k: real): seq<T> {
    if |s| == 0 then []
    else (if key(s[0]) == k then [s[0]] else []) + WithKey(s[1..], key, k)
  }

  /** Places x before the first element whose key is not larger than its own. */
  function InsertDesc<T(==)>(x: T, t: seq<T>, key: T -> real): (r: seq<T>)
    ensures |r| == |t| + 1
    ensures multiset(r) == multiset(t) + multiset{x}
  {
    if |t| == 0 then [x]
    else if key(x) >= key(t[0]) then [x] + t
    else
      assert t == [t[0]] + t[1..];
      [t[0]] + InsertDesc(x, t[1..], key)
  }

  function SortDesc<T(==)>(s: seq<T>, key: T -> real): (r: seq<T>)
    ensures |r| == |s|
    ensures multiset(r) == multiset(s)
  {
    if |s| == 0 then []
    else
      assert s == [s[0]] + s[1..];
      InsertDesc(s[0], SortDesc(s[1..], key), key)
  }

  lemma {:induction false} InsertSorted<T>(x: T, t: seq<T>, key: T -> real)
    requires SortedDesc(t, key)
    ensures SortedDesc(InsertDesc(x, t, key), key)
    decreases |t|
  {
    if |t| > 0 && key(x) < key(t[0]) {
      var t' := t[1..];
      InsertSorted(x, t', key);
      var r' := InsertDesc(x, t', key);
      forall y | y in r' ensures key(t[0]) >= key(y) {
        assert y in multiset(r');
        if y != x {
          assert y in multiset(t');
          var i :| 0 <= i < |t'| && t'[i] == y;
          assert t[i + 1] == y;
        }
      }
      var r := InsertDesc(x, t, key);
      assert r == [t[0]] + r';
      forall i, j | 0 <= i < j < |r| ensures key(r[i]) >= key(r[j]) {
        if i == 0 {
          assert r[j] == r'[j - 1];
          assert r'[j - 1] in r';
        } else {
          assert r[i] == r'[i - 1] && r[j] == r'[j - 1];
        }
      }
    }
  }

  lemma {:induction false} InsertStable<T>(x: T, t: seq<T>, key: T -> real, k: real)
    ensures WithKey(InsertDesc(x, t, key), key, k) == WithKey([x] + t, key, k)
    decreases |t|
  {
    if |t| > 0 && key(x) < key(t[0]) {
      var t' := t[1..];
      var r' := InsertDesc(x, t', key);
      InsertStable(x, t', key, k);
      var hx := if key(x) == k then [x] else [];
      var h0 := if key(t[0]) == k then [t[0]] else [];
      assert ([t[0]] + r')[0] == t[0] && ([t[0]] + r')[1..] == r';
      assert WithKey([t[0]] + r', key, k) == h0 + WithKey(r', key, k);
      assert ([x] + t')[0] == x && ([x] + t')[1..] == t';
      assert WithKey([x] + t', key, k) == hx + WithKey(t', key, k);
      assert ([x] + t)[0] == x && ([x] + t)[1..] == t;
      assert WithKey(t, key, k) == h0 + WithKey(t', key, k);
      assert hx == [] || h0 == [];
    }
  }

  /** The sort is ordered, a permutation of its input, and keeps the order of
      the elements of each key. */
  lemma {:induction false} SortDescCorrect<T>(s: seq<T>, key: T -> real)
    ensures SortedDesc(SortDesc(s, key), key)
    ensures multiset(SortDesc(s, key)) == multiset(s)
    ensures forall k :: WithKey(SortDesc(s, key), key, k) == WithKey(s, key, k)
    decreases |s|
  {
    if |s| > 0 {
      var s' := s[1..];
      SortDescCorrect(s', key);
      InsertSorted(s[0], SortDesc(s', key), key);
      forall k ensures WithKey(SortDesc(s, key), key, k) == WithKey(s, key, k) {
        var S' := SortDesc(s', key);
        InsertStable(s[0], S', key, k);
        assert ([s[0]] + S')[0] == s[0] && ([s[0]] + S')[1..] == S';
      }
    }
  }
}
