/** A JavaScript `Map` (or a plain object used as one) as the sequence of its
    entries in iteration order: insertion order, where setting a present key
    keeps its place and deleting keeps the order of the rest. */
module OrderedMap {
  import opened Common
  import Sorting
  import Strings

  datatype Entry<K, V> = Entry(key: K, value: V)

  function KeyOf<K, V>(x: Entry<K, V>): K { x.key }

  /** A map never holds a key twice. */
  ghost predicate UniqueKeys<K, V>(e: seq<Entry<K, V>>) {
    Sorting.DistinctBy(e, KeyOf)
  }

  function Keys<K, V>(e: seq<Entry<K, V>>): (r: seq<K>)
    ensures |r| == |e|
    ensures forall i :: 0 <= i < |e| ==> r[i] == e[i].key
  {
    seq(|e|, i requires 0 <= i < |e| => e[i].key)
  }

  lemma KeysCons<K, V>(e: seq<Entry<K, V>>)
    requires |e| > 0
    ensures Keys(e) == [e[0].key] + Keys(e[1..])
  {
  }

  /** `get`: the value of the entry holding `k`. */
  function Lookup<K(==), V(==)>(e: seq<Entry<K, V>>, k: K): (r: Option<V>)
    ensures r.None? <==> forall x :: x in e ==> x.key != k
    ensures r.Some? ==> Entry(k, r.value) in e
  {
    if |e| == 0 then None
    else if e[0].key == k then Some(e[0].value)
    else Lookup(e[1..], k)
  }

  /** The entries whose key is not among `ks`, in their order. */
  function Without<K(==), V>(e: seq<Entry<K, V>>, ks: seq<K>): (r: seq<Entry<K, V>>)
    ensures |r| <= |e|
    ensures forall x :: x in r ==> x in e && x.key !in ks
    ensures forall x :: x in e && x.key !in ks ==> x in r
  {
    if |e| == 0 then []
    else (if e[0].key in ks then [] else [e[0]]) + Without(e[1..], ks)
  }

  /** Removing keys hides exactly those keys: every other key looks up as
      before. */
  lemma {:induction false} LookupWithoutKey<K, V>(e: seq<Entry<K, V>>, ks: seq<K>, k: K)
    ensures Lookup(Without(e, ks), k) == if k in ks then None else Lookup(e, k)
  {
    if |e| > 0 {
      var rest := Without(e[1..], ks);
      LookupWithoutKey(e[1..], ks, k);
      if e[0].key !in ks {
        assert Without(e, ks) == [e[0]] + rest;
        assert ([e[0]] + rest)[1..] == rest;
      } else {
        assert Without(e, ks) == rest;
      }
    }
  }

  lemma LookupWithout<K, V>(e: seq<Entry<K, V>>, ks: seq<K>)
    ensures forall k :: Lookup(Without(e, ks), k) == if k in ks then None else Lookup(e, k)
  {
    forall k ensures Lookup(Without(e, ks), k) == if k in ks then None else Lookup(e, k) {
      LookupWithoutKey(e, ks, k);
    }
  }

  /** `delete`. */
  function Delete<K(==), V>(e: seq<Entry<K, V>>, k: K): seq<Entry<K, V>> {
    Without(e, [k])
  }

  lemma {:induction false} WithoutNothing<K, V>(e: seq<Entry<K, V>>, ks: seq<K>)
    requires forall x :: x in e ==> x.key !in ks
    ensures Without(e, ks) == e
  {
    if |e| > 0 {
      assert e == [e[0]] + e[1..];
      WithoutNothing(e[1..], ks);
    }
  }

  /** Removing two lists of keys in turn removes both at once. */
  lemma {:induction false} WithoutTwice<K, V>(e: seq<Entry<K, V>>, a: seq<K>, b: seq<K>)
    ensures Without(Without(e, a), b) == Without(e, a + b)
  {
    if |e| > 0 {
      WithoutTwice(e[1..], a, b);
      var w := Without(e, a);
      if e[0].key in a {
        assert w == Without(e[1..], a);
      } else {
        assert w == [e[0]] + Without(e[1..], a);
        assert w[1..] == Without(e[1..], a);
      }
    }
  }

  lemma UniqueTail<K, V>(e: seq<Entry<K, V>>)
    requires |e| > 0 && UniqueKeys(e)
    ensures UniqueKeys(e[1..])
  {
    Sorting.DistinctByTail(e, KeyOf);
  }

  lemma {:induction false} WithoutUnique<K, V>(e: seq<Entry<K, V>>, ks: seq<K>)
    requires UniqueKeys(e)
    ensures UniqueKeys(Without(e, ks))
  {
    if |e| > 0 {
      UniqueTail(e);
      WithoutUnique(e[1..], ks);
      var rest := Without(e[1..], ks);
      var r := Without(e, ks);
      if e[0].key !in ks {
        assert r == [e[0]] + rest;
        forall j | 0 <= j < |rest| ensures e[0].key != rest[j].key {
          assert rest[j] in e[1..];
          Sorting.DistinctByHead(e, KeyOf, rest[j]);
        }
        forall i, j | 0 <= i < j < |r| ensures r[i].key != r[j].key {
          assert r[j] == rest[j - 1];
          if i > 0 { assert r[i] == rest[i - 1]; }
        }
      }
    }
  }

  /** `set`: the key now maps to the new value, every other key maps to what
      it did, and an absent key is appended at the end. */
  function Put<K(==, !new), V(==)>(e: seq<Entry<K, V>>, k: K, v: V): (r: seq<Entry<K, V>>)
    ensures Lookup(r, k) == Some(v)
    ensures forall k' :: k' != k ==> Lookup(r, k') == Lookup(e, k')
    ensures Lookup(e, k).None? ==> r == e + [Entry(k, v)]
  {
    if |e| == 0 then [Entry(k, v)]
    else if e[0].key == k then [Entry(k, v)] + e[1..]
    else
      assert e == [e[0]] + e[1..];
      [e[0]] + Put(e[1..], k, v)
  }

  /** Setting a present key keeps every key in its place. */
  lemma {:induction false} PutInPlace<K(!new), V>(e: seq<Entry<K, V>>, k: K, v: V)
    requires Lookup(e, k).Some?
    ensures |Put(e, k, v)| == |e|
    ensures forall i :: 0 <= i < |e| ==> Put(e, k, v)[i].key == e[i].key
  {
    if e[0].key != k {
      PutInPlace(e[1..], k, v);
      var r := Put(e, k, v);
      assert r[1..] == Put(e[1..], k, v);
    }
  }

  /** Setting a key touches no entry stored under another key. */
  lemma {:induction false} PutKeeps<K(!new), V>(e: seq<Entry<K, V>>, k: K, v: V)
    ensures forall x :: x in e && x.key != k ==> x in Put(e, k, v)
    ensures forall x :: x in Put(e, k, v) ==> x in e || x == Entry(k, v)
  {
    if |e| > 0 && e[0].key != k {
      PutKeeps(e[1..], k, v);
    }
  }

  lemma PutUnique<K(!new), V>(e: seq<Entry<K, V>>, k: K, v: V)
    ensures UniqueKeys(e) ==> UniqueKeys(Put(e, k, v))
  {
    var r := Put(e, k, v);
    if !UniqueKeys(e) {
    } else if Lookup(e, k).None? {
      forall i, j | 0 <= i < j < |r| ensures r[i].key != r[j].key {
        if j == |e| { assert r[i] in e; }
      }
    } else {
      PutInPlace(e, k, v);
    }
  }

  // ---------------------------------------------------------------------
  // the key order of a plain object
  // ---------------------------------------------------------------------

  /** A property key a plain object lists before all others: a canonical
      array index, that is a decimal numeral without a leading zero whose
      value is below 2^32 - 1. */
  predicate IsArrayIndex(k: string) {
    && |k| >= 1
    && (forall c :: c in k ==> Strings.IsDigit(c))
    && (|k| == 1 || k[0] != '0')
    && Strings.ParseDigits(k) < 0xFFFF_FFFF
  }

  function IndexedBy<T>(key: T -> string): T -> bool {
    x => IsArrayIndex(key(x))
  }

  function NamedBy<T>(key: T -> string): T -> bool {
    x => !IsArrayIndex(key(x))
  }

  /** The numeric value of an array-index key (0 for the others). */
  function IndexValue<T>(key: T -> string): T -> int {
    x => if IsArrayIndex(key(x)) then Strings.ParseDigits(key(x)) else 0
  }

  /** The order in which `Object.keys`, `Object.entries` and `for...in` list
      the properties of a plain object whose properties were created in the
      order of `s`: the array-index keys first, by numeric value, then the
      other keys in creation order. */
  function ObjectOrder<T>(s: seq<T>, key: T -> string): (r: seq<T>)
    ensures multiset(r) == multiset(s)
  {
    FilterPartition(s, IndexedBy(key), NamedBy(key));
    Sorting.SortBy(Filter(s, IndexedBy(key)), IndexValue(key)) + Filter(s, NamedBy(key))
  }

  /** Every element of the sorted front part has an array-index key. */
  lemma FrontIndexed<T>(s: seq<T>, key: T -> string)
    ensures forall x :: (x in Sorting.SortBy(Filter(s, IndexedBy(key)), IndexValue(key)))
                        ==> IsArrayIndex(key(x))
  {
    var f := Filter(s, IndexedBy(key));
    var a := Sorting.SortBy(f, IndexValue(key));
    forall x | x in a ensures IsArrayIndex(key(x)) {
      assert x in multiset(f);
      assert x in f;
      assert IndexedBy(key)(x);
    }
  }

  /** Array-index keys come first: nothing after a named key is an index. */
  lemma ObjectIndexFirst<T>(s: seq<T>, key: T -> string)
    ensures var r := ObjectOrder(s, key);
      forall i, j :: 0 <= i < j < |r| && !IsArrayIndex(key(r[i])) ==> !IsArrayIndex(key(r[j]))
  {
    var a := Sorting.SortBy(Filter(s, IndexedBy(key)), IndexValue(key));
    var b := Filter(s, NamedBy(key));
    var r := ObjectOrder(s, key);
    assert r == a + b;
    FrontIndexed(s, key);
    forall i, j | 0 <= i < j < |r| && !IsArrayIndex(key(r[i]))
      ensures !IsArrayIndex(key(r[j]))
    {
      ConcatIndex(a, b, i);
      ConcatIndex(a, b, j);
    }
  }

  /** Array-index keys are listed by ascending numeric value. */
  lemma ObjectIndexAscending<T>(s: seq<T>, key: T -> string)
    ensures var r := ObjectOrder(s, key);
      forall i, j :: 0 <= i < j < |r| && IsArrayIndex(key(r[i])) && IsArrayIndex(key(r[j]))
        ==> Strings.ParseDigits(key(r[i])) <= Strings.ParseDigits(key(r[j]))
  {
    var a := Sorting.SortBy(Filter(s, IndexedBy(key)), IndexValue(key));
    var b := Filter(s, NamedBy(key));
    var r := ObjectOrder(s, key);
    assert r == a + b;
    Sorting.SortBySorted(Filter(s, IndexedBy(key)), IndexValue(key));
    forall i, j | 0 <= i < j < |r| && IsArrayIndex(key(r[i])) && IsArrayIndex(key(r[j]))
      ensures Strings.ParseDigits(key(r[i])) <= Strings.ParseDigits(key(r[j]))
    {
      ConcatIndex(a, b, j);
      assert r[i] == a[i] && r[j] == a[j];
      assert IndexValue(key)(a[i]) <= IndexValue(key)(a[j]);
    }
  }

  /** The other keys keep their creation order. */
  lemma ObjectNamedKept<T>(s: seq<T>, key: T -> string)
    ensures Filter(ObjectOrder(s, key), NamedBy(key)) == Filter(s, NamedBy(key))
  {
    var a := Sorting.SortBy(Filter(s, IndexedBy(key)), IndexValue(key));
    var b := Filter(s, NamedBy(key));
    FrontIndexed(s, key);
    FilterConcat(a, b, NamedBy(key));
    FilterNone(a, NamedBy(key));
    FilterAll(b, NamedBy(key));
  }

  /** An object without array-index keys lists in creation order. */
  lemma ObjectNoIndex<T>(s: seq<T>, key: T -> string)
    requires forall x :: x in s ==> !IsArrayIndex(key(x))
    ensures ObjectOrder(s, key) == s
  {
    FilterNone(s, IndexedBy(key));
    FilterAll(s, NamedBy(key));
  }

  /** An array-index key created after another key is listed before it. */
  lemma ObjectOrderSwap<T>(a: T, b: T, key: T -> string)
    requires !IsArrayIndex(key(a)) && IsArrayIndex(key(b))
    ensures ObjectOrder([a, b], key) == [b, a]
  {
    FilterPair(a, b, IndexedBy(key));
    FilterPair(a, b, NamedBy(key));
    Sorting.SortBySingle(b, IndexValue(key));
  }

  /** `Object.keys` of a plain object whose entries were created in the order
      of `e`: the same keys, with the array-index ones moved to the front. */
  function ObjectKeys<V>(e: seq<Entry<string, V>>): (r: seq<string>)
    ensures |r| == |e|
    ensures forall k :: k in r <==> exists x :: x in e && x.key == k
  {
    var o := ObjectOrder(e, KeyOf);
    KeysOfPermutation(o, e);
    Keys(o)
  }

  /** Reordering entries keeps the set of keys. */
  lemma KeysOfPermutation<K, V>(o: seq<Entry<K, V>>, e: seq<Entry<K, V>>)
    requires multiset(o) == multiset(e)
    ensures |o| == |e|
    ensures forall k :: k in Keys(o) <==> exists x :: x in e && x.key == k
  {
    assert |multiset(o)| == |multiset(e)|;
    forall k ensures k in Keys(o) <==> exists x :: x in e && x.key == k {
      if k in Keys(o) {
        var i :| 0 <= i < |o| && Keys(o)[i] == k;
        assert o[i] in multiset(e);
      }
      if exists x :: x in e && x.key == k {
        var x :| x in e && x.key == k;
        assert x in multiset(o);
        var i :| 0 <= i < |o| && o[i] == x;
        assert Keys(o)[i] == k;
      }
    }
  }

  /** Without array-index keys, `Object.keys` lists in creation order. */
  lemma ObjectKeysNoIndex<V>(e: seq<Entry<string, V>>)
    requires forall x :: x in e ==> !IsArrayIndex(x.key)
    ensures ObjectKeys(e) == Keys(e)
  {
    ObjectNoIndex(e, KeyOf);
  }
}
