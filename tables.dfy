/** Generic table machinery shared by every record kind: a table is the
    sequence of its rows in scan order, each row carrying the primary key the
    database assigned to it. */
module Tables {

  datatype Option<T> = None | Some(value: T)

  /** The value of a field an update supplies, or else the current one. */
  function Pick<T>(supplied: Option<T>, current: T): T {
    if supplied.Some? then supplied.value else current
  }

  /** A stored record: its primary key and its columns. */
  datatype Row<T> = Row(id: int, val: T)

  type Table<T> = seq<Row<T>>

  /** The primary-key constraint: no two rows share an id. */
  predicate DistinctIds<T>(t: Table<T>) {
    forall i, j :: 0 <= i < j < |t| ==> t[i].id != t[j].id
  }

  /** No element occurs twice. */
  predicate Distinct<T(==)>(s: seq<T>) {
    forall i, j :: 0 <= i < j < |s| ==> s[i] != s[j]
  }

  predicate HasId<T>(t: Table<T>, id: int) {
    exists i :: 0 <= i < |t| && t[i].id == id
  }

  /** Under the primary-key constraint a key determines its row. */
  lemma SameKeySameRow<T>(t: Table<T>, a: Row<T>, b: Row<T>)
    requires DistinctIds(t) && a in t && b in t && a.id == b.id
    ensures a == b
  {
    var i :| 0 <= i < |t| && t[i] == a;
    var j :| 0 <= j < |t| && t[j] == b;
  }

  /** Position of the first row with the given id, or -1 (the `.first()` of a
      `filter(id == ...)` query). */
  function IndexOf<T(!new)>(t: Table<T>, id: int): (k: int)
    ensures -1 <= k < |t|
    ensures 0 <= k ==> t[k].id == id && forall i :: 0 <= i < k ==> t[i].id != id
    ensures k == -1 <==> !HasId(t, id)
  {
    if |t| == 0 then -1
    else if t[0].id == id then 0
    else
      var k := IndexOf(t[1..], id);
      if k == -1 then -1 else k + 1
  }

  function Get<T(!new)>(t: Table<T>, id: int): (r: Option<T>)
    ensures r.Some? <==> HasId(t, id)
    ensures r.Some? ==> Row(id, r.value) in t
  {
    var k := IndexOf(t, id);
    if k < 0 then None else Some(t[k].val)
  }

  /** Largest id in the table, 0 for an empty table. */
  function MaxId<T(!new)>(t: Table<T>): (m: int)
    ensures 0 <= m
    ensures forall i :: 0 <= i < |t| ==> t[i].id <= m
  {
    if |t| == 0 then 0
    else
      var m := MaxId(t[..|t| - 1]);
      if t[|t| - 1].id > m then t[|t| - 1].id else m
  }

  /** The key the database gives a new row: one above the largest key in use. */
  function FreshId<T(!new)>(t: Table<T>): (id: int)
    ensures 1 <= id
    ensures !HasId(t, id)
  {
    MaxId(t) + 1
  }

  /** `db.add` of a new record: appended with a fresh key. */
  function Insert<T(!new)>(t: Table<T>, v: T): (r: Table<T>)
    ensures |r| == |t| + 1 && r[..|t|] == t && r[|t|] == Row(FreshId(t), v)
    ensures DistinctIds(t) ==> DistinctIds(r)
    ensures forall y :: y in r <==> y in t || y == Row(FreshId(t), v)
  {
    t + [Row(FreshId(t), v)]
  }

  /** An insertion keeps every key already present. */
  lemma InsertKeepsIds<T(!new)>(t: Table<T>, v: T)
    ensures forall id :: HasId(t, id) ==> HasId(Insert(t, v), id)
  {
    var r := Insert(t, v);
    assert forall i :: 0 <= i < |t| ==> r[i] == t[i];
  }

  /** `db.delete` of the row at position k. */
  function RemoveAt<T(!new)>(t: Table<T>, k: int): (r: Table<T>)
    requires 0 <= k < |t|
    ensures |r| == |t| - 1
    ensures forall y :: y in r ==> y in t
    ensures DistinctIds(t) ==> DistinctIds(r)
    ensures DistinctIds(t) ==> forall y :: y in r <==> y in t && y.id != t[k].id
  {
    var r := t[..k] + t[k + 1..];
    assert forall i :: 0 <= i < |r| ==> r[i] == t[if i < k then i else i + 1];
    if DistinctIds(t) then
      assert forall y :: y in t && y.id != t[k].id ==> y in r by {
        forall y | y in t && y.id != t[k].id ensures y in r {
          var i :| 0 <= i < |t| && t[i] == y;
          assert i != k;
          assert r[if i < k then i else i - 1] == y;
        }
      }
      r
    else r
  }

  /** Removing one row keeps every other key present. */
  lemma RemoveKeepsOthers<T(!new)>(t: Table<T>, k: int, id: int)
    requires DistinctIds(t) && 0 <= k < |t| && HasId(t, id) && id != t[k].id
    ensures HasId(RemoveAt(t, k), id)
  {
    var i :| 0 <= i < |t| && t[i].id == id;
    var r := RemoveAt(t, k);
    assert t[i] in r;
    var j :| 0 <= j < |r| && r[j] == t[i];
  }

  /** In-place assignment to the columns of the row at position k; its key is kept. */
  function UpdateAt<T(!new)>(t: Table<T>, k: int, v: T): (r: Table<T>)
    requires 0 <= k < |t|
    ensures |r| == |t| && r[k] == Row(t[k].id, v)
    ensures forall i :: 0 <= i < |t| && i != k ==> r[i] == t[i]
    ensures DistinctIds(t) ==> DistinctIds(r)
    ensures forall y :: y in r ==> y in t || y == Row(t[k].id, v)
    ensures DistinctIds(t) ==> forall y :: y in t && y.id != t[k].id ==> y in r
  {
    var r := t[k := Row(t[k].id, v)];
    assert forall y :: y in t && y.id != t[k].id ==> y in r by {
      forall y | y in t && y.id != t[k].id ensures y in r {
        var i :| 0 <= i < |t| && t[i] == y;
        assert r[i] == y;
      }
    }
    r
  }

  /** Assigning to a row keeps the set of keys. */
  lemma UpdateKeepsIds<T(!new)>(t: Table<T>, k: int, v: T)
    requires 0 <= k < |t|
    ensures forall id :: HasId(UpdateAt(t, k, v), id) <==> HasId(t, id)
  {
    var t' := UpdateAt(t, k, v);
    assert forall i :: 0 <= i < |t| ==> t'[i].id == t[i].id;
  }

  /** The elements of s satisfying p, in order (a filtered query's result). */
  function Filter<T(!new)>(s: seq<T>, p: T -> bool): (r: seq<T>)
    ensures |r| <= |s|
    ensures forall x :: x in r <==> x in s && p(x)
  {
    if |s| == 0 then []
    else Filter(s[..|s| - 1], p) + (if p(s[|s| - 1]) then [s[|s| - 1]] else [])
  }

  /** A filtered query's `.count()`. */
  function Count<T(!new)>(s: seq<T>, p: T -> bool): nat {
    |Filter(s, p)|
  }

  lemma FilterAppend<T(!new)>(s: seq<T>, x: T, p: T -> bool)
    ensures Filter(s + [x], p) == Filter(s, p) + (if p(x) then [x] else [])
  {
    assert (s + [x])[..|s|] == s;
  }

  lemma ConcatAssoc<T>(a: seq<T>, b: seq<T>, c: seq<T>)
    ensures a + b + c == a + (b + c)
  {
  }

  lemma {:induction false} FilterConcat<T(!new)>(s: seq<T>, t: seq<T>, p: T -> bool)
    ensures Filter(s + t, p) == Filter(s, p) + Filter(t, p)
    decreases |t|
  {
    if |t| == 0 {
      assert s + t == s;
    } else {
      var t' := t[..|t| - 1];
      var x := t[|t| - 1];
      var st := s + t;
      assert st[..|st| - 1] == s + t' && st[|st| - 1] == x;
      FilterConcat(s, t', p);
      var tail := if p(x) then [x] else [];
      var a, b := Filter(s, p), Filter(t', p);
      assert Filter(st, p) == Filter(s + t', p) + tail;
      ConcatAssoc(a, b, tail);
    }
  }

  /** A filter that no element passes yields nothing, one that every element passes keeps all. */
  lemma FilterNone<T(!new)>(s: seq<T>, p: T -> bool)
    requires forall x :: x in s ==> !p(x)
    ensures Filter(s, p) == []
  {
  }

  lemma {:induction false} FilterAll<T(!new)>(s: seq<T>, p: T -> bool)
    requires forall x :: x in s ==> p(x)
    ensures Filter(s, p) == s
    decreases |s|
  {
    if |s| > 0 {
      var s' := s[..|s| - 1];
      assert s == s' + [s[|s| - 1]];
      FilterAll(s', p);
    }
  }

  /** Filtering again by a stronger predicate is filtering once. */
  lemma {:induction false} FilterStronger<T(!new)>(s: seq<T>, p: T -> bool, q: T -> bool)
    requires forall x :: q(x) ==> p(x)
    ensures Filter(Filter(s, p), q) == Filter(s, q)
    decreases |s|
  {
    if |s| > 0 {
      var s' := s[..|s| - 1];
      var x := s[|s| - 1];
      FilterStronger(s', p, q);
      assert Filter(s, q) == Filter(s', q) + (if q(x) then [x] else []);
      if p(x) {
        assert Filter(s, p) == Filter(s', p) + [x];
        FilterAppend(Filter(s', p), x, q);
      } else {
        assert !q(x);
        assert Filter(s, p) == Filter(s', p);
      }
    }
  }

  /** Filters by predicates that agree everywhere agree. */
  lemma {:induction false} FilterSame<T(!new)>(s: seq<T>, p: T -> bool, q: T -> bool)
    requires forall x :: p(x) == q(x)
    ensures Filter(s, p) == Filter(s, q)
    decreases |s|
  {
    if |s| > 0 {
      FilterSame(s[..|s| - 1], p, q);
    }
  }

  /** Splitting by a predicate and its complement partitions the count. */
  lemma {:induction false} CountSplit<T(!new)>(s: seq<T>, p: T -> bool, q: T -> bool, r: T -> bool)
    requires forall x :: p(x) == (q(x) || r(x))
    requires forall x :: !(q(x) && r(x))
    ensures Count(s, p) == Count(s, q) + Count(s, r)
    decreases |s|
  {
    if |s| > 0 {
      CountSplit(s[..|s| - 1], p, q, r);
    }
  }

  /** A weaker filter keeps at least as many elements. */
  lemma {:induction false} CountMono<T(!new)>(s: seq<T>, p: T -> bool, q: T -> bool)
    requires forall x :: p(x) ==> q(x)
    ensures Count(s, p) <= Count(s, q)
    decreases |s|
  {
    if |s| > 0 {
      CountMono(s[..|s| - 1], p, q);
    }
  }

  /** `[f(x) for x in s]` */
  function Map<T(!new), U(!new)>(s: seq<T>, f: T -> U): (r: seq<U>)
    ensures |r| == |s|
    ensures forall i :: 0 <= i < |s| ==> r[i] == f(s[i])
  {
    if |s| == 0 then [] else Map(s[..|s| - 1], f) + [f(s[|s| - 1])]
  }

  lemma MapMembers<T(!new), U(!new)>(s: seq<T>, f: T -> U)
    ensures forall y :: y in Map(s, f) <==> exists x :: x in s && y == f(x)
  {
    var r := Map(s, f);
    forall y | y in r ensures exists x :: x in s && y == f(x) {
      var i :| 0 <= i < |r| && r[i] == y;
      assert s[i] in s;
    }
    forall x | x in s ensures f(x) in r {
      var i :| 0 <= i < |s| && s[i] == x;
      assert r[i] == f(x);
    }
  }

  /** Python's `xs[:n]`: a negative n drops that many elements from the end. */
  function PyPrefix<T(!new)>(s: seq<T>, n: int): (r: seq<T>)
    ensures |r| == if 0 <= n then (if n < |s| then n else |s|)
                   else (if |s| + n < 0 then 0 else |s| + n)
    ensures r == s[..|r|]
  {
    if 0 <= n then (if n < |s| then s[..n] else s)
    else if |s| + n < 0 then [] else s[..|s| + n]
  }
}
