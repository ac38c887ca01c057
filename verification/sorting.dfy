/** A stable sort by an integer key. `Array.prototype.sort` is stable, so
    sorting cache entries by timestamp (or history entries by negated
    timestamp) is modelled by this insertion sort: each element goes in front
    of the first element whose key is not smaller, so elements with equal keys
    keep their original order. */
module Sorting {

  ghost predicate SortedBy<T>(s: seq<T>, key: T -> int) {
    forall i, j :: 0 <= i < j < |s| ==> key(s[i]) <= key(s[j])
  }

  /** The elements whose key is `k`, in the order they appear. */
  function WithKey<T>(s: seq<T>, key: T -> int, k: int): (r: seq<T>)
    ensures |r| <= |s|
  {
    if |s| == 0 then []
    else (if key(s[0]) == k then [s[0]] else []) + WithKey(s[1..], key, k)
  }

  lemma {:induction false} WithKeyConcat<T>(a: seq<T>, b: seq<T>, key: T -> int, k: int)
    ensures WithKey(a + b, key, k) == WithKey(a, key, k) + WithKey(b, key, k)
  {
    if |a| == 0 {
      assert a + b == b;
    } else {
      var ab := a + b;
      assert ab[0] == a[0] && ab[1..] == a[1..] + b;
      WithKeyConcat(a[1..], b, key, k);
      var h := if key(a[0]) == k then [a[0]] else [];
      calc {
        WithKey(ab, key, k);
        h + WithKey(a[1..] + b, key, k);
        h + (WithKey(a[1..], key, k) + WithKey(b, key, k));
        (h + WithKey(a[1..], key, k)) + WithKey(b, key, k);
      }
    }
  }

  function Insert<T>(x: T, s: seq<T>, key: T -> int): (r: seq<T>)
    ensures |r| == |s| + 1
    ensures multiset(r) == multiset(s) + multiset{x}
  {
    if |s| == 0 then [x]
    else if key(x) <= key(s[0]) then [x] + s
    else
      assert s == [s[0]] + s[1..];
      [s[0]] + Insert(x, s[1..], key)
  }

  /** Prepending an element whose key is no larger than any other keeps a
      sequence sorted. */
  lemma SortedCons<T>(h: T, s: seq<T>, key: T -> int)
    requires SortedBy(s, key)
    requires forall e :: e in s ==> key(h) <= key(e)
    ensures SortedBy([h] + s, key)
  {
    var r := [h] + s;
    forall i, j | 0 <= i < j < |r| ensures key(r[i]) <= key(r[j]) {
      assert r[j] == s[j - 1];
      if i > 0 { assert r[i] == s[i - 1]; }
    }
  }

  /** An element of `r`, where `r` is `s` with `x` added, is `x` or comes
      from `s`. */
  lemma AddedOrKept<T>(r: seq<T>, s: seq<T>, x: T, e: T)
    requires multiset(r) == multiset(s) + multiset{x}
    requires e in r
    ensures e == x || e in s
  {
    assert e in multiset(r);
  }

  /** The head of a sorted sequence has a key no larger than any element of
      its tail. */
  lemma SortedHead<T>(s: seq<T>, key: T -> int, e: T)
    requires |s| > 0 && SortedBy(s, key)
    requires e in s
    ensures key(s[0]) <= key(e)
  {
    var q :| 0 <= q < |s| && s[q] == e;
  }

  lemma SortedTail<T>(s: seq<T>, key: T -> int)
    requires |s| > 0 && SortedBy(s, key)
    ensures SortedBy(s[1..], key)
  {
    var t := s[1..];
    forall i, j | 0 <= i < j < |t| ensures key(t[i]) <= key(t[j]) {
      assert t[i] == s[i + 1] && t[j] == s[j + 1];
    }
  }

  lemma {:induction false} InsertSorted<T>(x: T, s: seq<T>, key: T -> int)
    requires SortedBy(s, key)
    ensures SortedBy(Insert(x, s, key), key)
  {
    if |s| == 0 {
      assert Insert(x, s, key) == [x];
    } else if key(x) <= key(s[0]) {
      forall e | e in s ensures key(x) <= key(e) {
        SortedHead(s, key, e);
      }
      SortedCons(x, s, key);
      assert Insert(x, s, key) == [x] + s;
    } else {
      var t := s[1..];
      var rest := Insert(x, t, key);
      SortedTail(s, key);
      InsertSorted(x, t, key);
      forall e | e in rest ensures key(s[0]) <= key(e) {
        AddedOrKept(rest, t, x, e);
        if e != x {
          SortedHead(s, key, e);
        }
      }
      SortedCons(s[0], rest, key);
      assert Insert(x, s, key) == [s[0]] + rest;
    }
  }

  function SortBy<T>(s: seq<T>, key: T -> int): (r: seq<T>)
    ensures |r| == |s|
    ensures multiset(r) == multiset(s)
  {
    if |s| == 0 then []
    else
      assert s == [s[0]] + s[1..];
      Insert(s[0], SortBy(s[1..], key), key)
  }

  lemma SortBySingle<T>(x: T, key: T -> int)
    ensures SortBy([x], key) == [x]
  {
  }

  lemma {:induction false} SortBySorted<T>(s: seq<T>, key: T -> int)
    ensures SortedBy(SortBy(s, key), key)
  {
    if |s| > 0 {
      SortBySorted(s[1..], key);
      InsertSorted(s[0], SortBy(s[1..], key), key);
    }
  }

  lemma WithKeyCons<T>(h: T, t: seq<T>, key: T -> int, k: int)
    ensures WithKey([h] + t, key, k) == (if key(h) == k then [h] else []) + WithKey(t, key, k)
  {
    assert ([h] + t)[1..] == t;
  }

  /** The three cases of an insertion, one step deep. */
  lemma InsertUnfold<T>(x: T, s: seq<T>, key: T -> int)
    ensures |s| == 0 ==> Insert(x, s, key) == [x] + s
    ensures |s| > 0 && key(x) <= key(s[0]) ==> Insert(x, s, key) == [x] + s
    ensures |s| > 0 && key(x) > key(s[0]) ==> Insert(x, s, key) == [s[0]] + Insert(x, s[1..], key)
  {
  }

  /** Inserting puts the new element in front of every element with its key. */
  lemma {:induction false} InsertWithKey<T>(x: T, s: seq<T>, key: T -> int, k: int)
    ensures WithKey(Insert(x, s, key), key, k)
         == (if key(x) == k then [x] else []) + WithKey(s, key, k)
  {
    if |s| == 0 || key(x) <= key(s[0]) {
      InsertUnfold(x, s, key);
      WithKeyCons(x, s, key, k);
    } else {
      var t := s[1..];
      var rest := Insert(x, t, key);
      assert Insert(x, s, key) == [s[0]] + rest;
      assert s == [s[0]] + t;
      InsertWithKey(x, t, key, k);
      WithKeyCons(s[0], rest, key, k);
      WithKeyCons(s[0], t, key, k);
      // x and s[0] have different keys, so at most one of them has key k
      if key(x) == k {
        assert WithKey(Insert(x, s, key), key, k) == [x] + WithKey(t, key, k);
        assert WithKey(s, key, k) == WithKey(t, key, k);
      } else {
        assert WithKey(rest, key, k) == WithKey(t, key, k);
      }
    }
  }

  /** Stability: the elements sharing one key come out in their input order. */
  lemma {:induction false} SortByStable<T>(s: seq<T>, key: T -> int, k: int)
    ensures WithKey(SortBy(s, key), key, k) == WithKey(s, key, k)
  {
    if |s| > 0 {
      SortByStable(s[1..], key, k);
      InsertWithKey(s[0], SortBy(s[1..], key), key, k);
    }
  }

  /** No two elements share an identity. */
  ghost predicate DistinctBy<T, K>(s: seq<T>, id: T -> K) {
    forall i, j :: 0 <= i < j < |s| ==> id(s[i]) != id(s[j])
  }

  /** Prepending an element whose identity occurs nowhere else keeps
      identities distinct. */
  lemma DistinctCons<T, K>(h: T, s: seq<T>, id: T -> K)
    requires DistinctBy(s, id)
    requires forall e :: e in s ==> id(e) != id(h)
    ensures DistinctBy([h] + s, id)
  {
    var r := [h] + s;
    forall i, j | 0 <= i < j < |r| ensures id(r[i]) != id(r[j]) {
      assert r[j] == s[j - 1];
      if i > 0 { assert r[i] == s[i - 1]; }
    }
  }

  lemma {:induction false} InsertDistinct<T, K>(x: T, s: seq<T>, key: T -> int, id: T -> K)
    requires DistinctBy(s, id)
    requires forall e :: e in s ==> id(e) != id(x)
    ensures DistinctBy(Insert(x, s, key), id)
  {
    if |s| == 0 {
      assert Insert(x, s, key) == [x];
    } else if key(x) <= key(s[0]) {
      DistinctCons(x, s, id);
      assert Insert(x, s, key) == [x] + s;
    } else {
      var t := s[1..];
      var rest := Insert(x, t, key);
      DistinctByTail(s, id);
      InsertDistinct(x, t, key, id);
      forall e | e in rest ensures id(e) != id(s[0]) {
        AddedOrKept(rest, t, x, e);
        if e != x {
          DistinctByHead(s, id, e);
        }
      }
      DistinctCons(s[0], rest, id);
      assert Insert(x, s, key) == [s[0]] + rest;
    }
  }

  /** Distinct identities stay distinct after sorting. */
  lemma {:induction false} SortByDistinct<T, K>(s: seq<T>, key: T -> int, id: T -> K)
    requires DistinctBy(s, id)
    ensures DistinctBy(SortBy(s, key), id)
  {
    if |s| > 0 {
      assert DistinctBy(s[1..], id) by {
        forall i, j | 0 <= i < j < |s[1..]| ensures id(s[1..][i]) != id(s[1..][j]) {
          assert s[1..][i] == s[i + 1] && s[1..][j] == s[j + 1];
        }
      }
      SortByDistinct(s[1..], key, id);
      var sorted := SortBy(s[1..], key);
      forall e | e in sorted ensures id(e) != id(s[0]) {
        assert e in multiset(s[1..]);
        var q :| 0 <= q < |s[1..]| && s[1..][q] == e;
        assert s[q + 1] == e;
      }
      InsertDistinct(s[0], sorted, key, id);
    }
  }

  lemma DistinctByTail<T, K>(s: seq<T>, id: T -> K)
    requires |s| > 0 && DistinctBy(s, id)
    ensures DistinctBy(s[1..], id)
  {
    forall i, j | 0 <= i < j < |s[1..]| ensures id(s[1..][i]) != id(s[1..][j]) {
      assert s[1..][i] == s[i + 1] && s[1..][j] == s[j + 1];
    }
  }

  /** The head's identity occurs nowhere in the tail. */
  lemma DistinctByHead<T, K>(s: seq<T>, id: T -> K, x: T)
    requires |s| > 0 && DistinctBy(s, id)
    requires x in s[1..]
    ensures id(x) != id(s[0])
  {
    var q :| 0 <= q < |s[1..]| && s[1..][q] == x;
    assert s[q + 1] == x;
  }

  /** `Array.prototype.sort` with a comparator, as an insertion sort that puts
      each element in front of the first one it does not compare above. */
  function InsertWith<T>(x: T, s: seq<T>, cmp: (T, T) -> int): (r: seq<T>)
    ensures |r| == |s| + 1
    ensures multiset(r) == multiset(s) + multiset{x}
  {
    if |s| == 0 then [x]
    else if cmp(x, s[0]) <= 0 then [x] + s
    else
      assert s == [s[0]] + s[1..];
      [s[0]] + InsertWith(x, s[1..], cmp)
  }

  function SortWith<T>(s: seq<T>, cmp: (T, T) -> int): (r: seq<T>)
    ensures |r| == |s|
    ensures multiset(r) == multiset(s)
  {
    if |s| == 0 then []
    else
      assert s == [s[0]] + s[1..];
      InsertWith(s[0], SortWith(s[1..], cmp), cmp)
  }

  /** The comparator orders by `key` first: whatever it says about two
      elements agrees with their keys. */
  ghost predicate KeyFirst<T(!new)>(cmp: (T, T) -> int, key: T -> int) {
    forall a, b :: (cmp(a, b) <= 0 ==> key(a) <= key(b)) && (cmp(a, b) > 0 ==> key(b) <= key(a))
  }

  lemma {:induction false} InsertWithSorted<T(!new)>(x: T, s: seq<T>, cmp: (T, T) -> int, key: T -> int)
    requires KeyFirst(cmp, key)
    requires SortedBy(s, key)
    ensures SortedBy(InsertWith(x, s, cmp), key)
  {
    if |s| == 0 {
      assert InsertWith(x, s, cmp) == [x];
    } else if cmp(x, s[0]) <= 0 {
      assert key(x) <= key(s[0]);
      forall e | e in s ensures key(x) <= key(e) {
        SortedHead(s, key, e);
      }
      SortedCons(x, s, key);
      assert InsertWith(x, s, cmp) == [x] + s;
    } else {
      assert key(s[0]) <= key(x);
      var t := s[1..];
      var rest := InsertWith(x, t, cmp);
      SortedTail(s, key);
      InsertWithSorted(x, t, cmp, key);
      forall e | e in rest ensures key(s[0]) <= key(e) {
        AddedOrKept(rest, t, x, e);
        if e != x {
          SortedHead(s, key, e);
        }
      }
      SortedCons(s[0], rest, key);
      assert InsertWith(x, s, cmp) == [s[0]] + rest;
    }
  }

  /** Sorting with a comparator that orders by `key` first sorts by `key`. */
  lemma {:induction false} SortWithSorted<T(!new)>(s: seq<T>, cmp: (T, T) -> int, key: T -> int)
    requires KeyFirst(cmp, key)
    ensures SortedBy(SortWith(s, cmp), key)
  {
    if |s| > 0 {
      SortWithSorted(s[1..], cmp, key);
      InsertWithSorted(s[0], SortWith(s[1..], cmp), cmp, key);
    }
  }

  /** A comparator that behaves like a total preorder: swapping the arguments
      flips the sign, and "not after" is transitive (as `localeCompare` and a
      difference of numbers are). */
  ghost predicate Consistent<T(!new)>(cmp: (T, T) -> int) {
    && (forall a, b :: cmp(a, b) <= 0 <==> cmp(b, a) >= 0)
    && (forall a, b, c :: cmp(a, b) <= 0 && cmp(b, c) <= 0 ==> cmp(a, c) <= 0)
  }

  /** No element is placed after one it compares above. */
  ghost predicate SortedWith<T>(s: seq<T>, cmp: (T, T) -> int) {
    forall i, j :: 0 <= i < j < |s| ==> cmp(s[i], s[j]) <= 0
  }

  lemma SortedWithCons<T>(h: T, s: seq<T>, cmp: (T, T) -> int)
    requires SortedWith(s, cmp)
    requires forall e :: e in s ==> cmp(h, e) <= 0
    ensures SortedWith([h] + s, cmp)
  {
    var r := [h] + s;
    forall i, j | 0 <= i < j < |r| ensures cmp(r[i], r[j]) <= 0 {
      assert r[j] == s[j - 1];
      if i > 0 { assert r[i] == s[i - 1]; }
    }
  }

  lemma {:induction false} InsertWithOrdered<T(!new)>(x: T, s: seq<T>, cmp: (T, T) -> int)
    requires Consistent(cmp)
    requires SortedWith(s, cmp)
    ensures SortedWith(InsertWith(x, s, cmp), cmp)
  {
    if |s| == 0 {
      assert InsertWith(x, s, cmp) == [x];
    } else if cmp(x, s[0]) <= 0 {
      forall e | e in s ensures cmp(x, e) <= 0 {
        var k :| 0 <= k < |s| && s[k] == e;
        if k > 0 { assert cmp(s[0], s[k]) <= 0; }
      }
      SortedWithCons(x, s, cmp);
      assert InsertWith(x, s, cmp) == [x] + s;
    } else {
      var t := s[1..];
      var rest := InsertWith(x, t, cmp);
      assert SortedWith(t, cmp) by {
        forall i, j | 0 <= i < j < |t| ensures cmp(t[i], t[j]) <= 0 {
          assert t[i] == s[i + 1] && t[j] == s[j + 1];
        }
      }
      InsertWithOrdered(x, t, cmp);
      assert cmp(s[0], x) <= 0;
      forall e | e in rest ensures cmp(s[0], e) <= 0 {
        AddedOrKept(rest, t, x, e);
        if e != x {
          var k :| 0 <= k < |t| && t[k] == e;
          assert s[k + 1] == e;
        }
      }
      SortedWithCons(s[0], rest, cmp);
      assert InsertWith(x, s, cmp) == [s[0]] + rest;
    }
  }

  /** With a consistent comparator, the sort leaves no pair out of order. */
  lemma {:induction false} SortWithOrdered<T(!new)>(s: seq<T>, cmp: (T, T) -> int)
    requires Consistent(cmp)
    ensures SortedWith(SortWith(s, cmp), cmp)
  {
    if |s| > 0 {
      SortWithOrdered(s[1..], cmp);
      InsertWithOrdered(s[0], SortWith(s[1..], cmp), cmp);
    }
  }
}
