/** The parts of JavaScript's `Map`, `Set` and `Array.prototype.sort` the source relies on. */
module JsCollections {
  import opened Wrappers

  /** A `Map` in insertion order: `set` on a present key keeps that key's place. */
  type JsMap<K, V> = seq<(K, V)>

  function KeysOf<K, V>(m: JsMap<K, V>): (keys: seq<K>)
    ensures |keys| == |m|
    ensures forall i :: 0 <= i < |m| ==> keys[i] == m[i].0
  {
    if m == [] then [] else [m[0].0] + KeysOf(m[1..])
  }

  function Get<K(==), V>(m: JsMap<K, V>, key: K): (r: Option<V>) {
    if m == [] then None
    else if m[0].0 == key then Some(m[0].1)
    else Get(m[1..], key)
  }

  function Put<K(==), V>(m: JsMap<K, V>, key: K, value: V): (r: JsMap<K, V>) {
    if m == [] then [(key, value)]
    else if m[0].0 == key then [(key, value)] + m[1..]
    else [m[0]] + Put(m[1..], key, value)
  }

  ghost predicate Distinct<T>(s: seq<T>) {
    forall i, j :: 0 <= i < j < |s| ==> s[i] != s[j]
  }

  lemma {:induction false} GetPut<K, V>(m: JsMap<K, V>, key: K, value: V, other: K)
    ensures Get(Put(m, key, value), other) == if other == key then Some(value) else Get(m, other)
  {
    if m != [] && m[0].0 != key {
      GetPut(m[1..], key, value, other);
    }
  }

  lemma {:induction false} GetPutAll<K, V>(m: JsMap<K, V>, key: K, value: V)
    ensures forall other :: Get(Put(m, key, value), other) == if other == key then Some(value) else Get(m, other)
  {
    forall other ensures Get(Put(m, key, value), other) == if other == key then Some(value) else Get(m, other) {
      GetPut(m, key, value, other);
    }
  }

  lemma {:induction false} GetInKeys<K, V>(m: JsMap<K, V>, key: K)
    ensures Get(m, key).Some? <==> key in KeysOf(m)
  {
    if m != [] {
      GetInKeys(m[1..], key);
      assert KeysOf(m) == [m[0].0] + KeysOf(m[1..]);
    }
  }

  /** A new key goes to the end; a present key keeps the key order. */
  lemma {:induction false} PutKeys<K, V>(m: JsMap<K, V>, key: K, value: V)
    ensures KeysOf(Put(m, key, value)) == if key in KeysOf(m) then KeysOf(m) else KeysOf(m) + [key]
  {
    if m != [] && m[0].0 != key {
      PutKeys(m[1..], key, value);
      var tail := Put(m[1..], key, value);
      assert ([m[0]] + tail)[1..] == tail;
    }
  }

  lemma PutKeepsDistinct<K, V>(m: JsMap<K, V>, key: K, value: V)
    requires Distinct(KeysOf(m))
    ensures Distinct(KeysOf(Put(m, key, value)))
  {
    PutKeys(m, key, value);
    var keys := KeysOf(m);
    if key !in keys {
      assert Distinct(keys + [key]);
    }
  }

  /** With distinct keys, every pair of the map is what `Get` returns for its key. */
  lemma {:induction false} GetAt<K, V>(m: JsMap<K, V>, i: nat)
    requires Distinct(KeysOf(m)) && i < |m|
    ensures Get(m, m[i].0) == Some(m[i].1)
  {
    if i > 0 {
      assert KeysOf(m)[0] != KeysOf(m)[i];
      assert KeysOf(m) == [m[0].0] + KeysOf(m[1..]);
      forall a, b | 0 <= a < b < |m[1..]| ensures KeysOf(m[1..])[a] != KeysOf(m[1..])[b] {
        assert KeysOf(m)[a + 1] != KeysOf(m)[b + 1];
      }
      GetAt(m[1..], i - 1);
    }
  }

  /** Conversely, what `Get` returns is a pair of the map. */
  lemma {:induction false} GetFinds<K, V>(m: JsMap<K, V>, key: K) returns (i: nat)
    requires Get(m, key).Some?
    ensures i < |m| && m[i] == (key, Get(m, key).value)
  {
    if m[0].0 == key {
      i := 0;
    } else {
      i := GetFinds(m[1..], key);
      i := i + 1;
    }
  }

  // Stable sorting by a total order

  ghost predicate TotalOrder<T(!new)>(leq: (T, T) -> bool) {
    && (forall a, b :: leq(a, b) || leq(b, a))
    && (forall a, b, c :: leq(a, b) && leq(b, c) ==> leq(a, c))
  }

  ghost predicate SortedBy<T>(s: seq<T>, leq: (T, T) -> bool) {
    forall i, j :: 0 <= i < j < |s| ==> leq(s[i], s[j])
  }

  function Insert<T>(x: T, s: seq<T>, leq: (T, T) -> bool): (r: seq<T>) {
    if s == [] then [x]
    else if leq(x, s[0]) then [x] + s
    else [s[0]] + Insert(x, s[1..], leq)
  }

  function Sort<T>(s: seq<T>, leq: (T, T) -> bool): (r: seq<T>) {
    if s == [] then [] else Insert(s[0], Sort(s[1..], leq), leq)
  }

  lemma {:induction false} InsertIsMultiset<T>(x: T, s: seq<T>, leq: (T, T) -> bool)
    ensures multiset(Insert(x, s, leq)) == multiset{x} + multiset(s)
  {
    if s != [] {
      assert s == [s[0]] + s[1..];
      if !leq(x, s[0]) {
        InsertIsMultiset(x, s[1..], leq);
      }
    }
  }

  lemma {:induction false} InsertSorted<T(!new)>(x: T, s: seq<T>, leq: (T, T) -> bool)
    requires TotalOrder(leq) && SortedBy(s, leq)
    ensures SortedBy(Insert(x, s, leq), leq)
  {
    if s != [] && !leq(x, s[0]) {
      forall i, j | 0 <= i < j < |s[1..]| ensures leq(s[1..][i], s[1..][j]) {
        assert leq(s[i + 1], s[j + 1]);
      }
      InsertSorted(x, s[1..], leq);
      InsertIsMultiset(x, s[1..], leq);
      var tail := Insert(x, s[1..], leq);
      forall j | 0 <= j < |tail| ensures leq(s[0], tail[j]) {
        assert tail[j] in multiset(tail);
        if tail[j] != x {
          assert tail[j] in s[1..];
        }
      }
    }
  }

  lemma {:induction false} SortCorrect<T(!new)>(s: seq<T>, leq: (T, T) -> bool)
    requires TotalOrder(leq)
    ensures SortedBy(Sort(s, leq), leq)
    ensures multiset(Sort(s, leq)) == multiset(s)
  {
    if s != [] {
      SortCorrect(s[1..], leq);
      InsertSorted(s[0], Sort(s[1..], leq), leq);
      InsertIsMultiset(s[0], Sort(s[1..], leq), leq);
      assert s == [s[0]] + s[1..];
    }
  }

  /** A permutation has the same members and, if one side has no repeats, neither has the other. */
  lemma PermutationKeepsDistinct<T>(s: seq<T>, t: seq<T>)
    requires multiset(s) == multiset(t) && Distinct(s)
    ensures Distinct(t)
    ensures forall x :: x in s <==> x in t
  {
    forall x ensures x in s <==> x in t {
      assert x in s <==> x in multiset(s);
      assert x in t <==> x in multiset(t);
    }
    forall i, j | 0 <= i < j < |t| ensures t[i] != t[j] {
      if t[i] == t[j] {
        OccursTwice(t, i, j);
        DistinctCount(s, t[i]);
      }
    }
  }

  lemma OccursTwice<T>(t: seq<T>, i: nat, j: nat)
    requires i < j < |t| && t[i] == t[j]
    ensures multiset(t)[t[i]] >= 2
  {
    assert t == t[..i] + [t[i]] + t[i + 1..j] + [t[j]] + t[j + 1..];
  }

  lemma {:induction false} DistinctCount<T>(s: seq<T>, x: T)
    requires Distinct(s)
    ensures multiset(s)[x] <= 1
  {
    if s != [] {
      assert Distinct(s[1..]) by {
        forall a, b | 0 <= a < b < |s[1..]| ensures s[1..][a] != s[1..][b] {
          assert s[a + 1] != s[b + 1];
        }
      }
      DistinctCount(s[1..], x);
      assert s == [s[0]] + s[1..];
      assert forall k :: 0 <= k < |s[1..]| ==> s[1..][k] == s[k + 1] != s[0];
      assert s[0] !in multiset(s[1..]);
    }
  }

  // `[...map.entries()].sort(([a], [b]) => …)`: entries by key

  function ByKey<K, V>(leq: (K, K) -> bool): ((K, V), (K, V)) -> bool {
    (a: (K, V), b: (K, V)) => leq(a.0, b.0)
  }

  ghost predicate KeysAscend<K, V>(m: JsMap<K, V>, leq: (K, K) -> bool) {
    forall i, j :: 0 <= i < j < |m| ==> leq(m[i].0, m[j].0) && m[i].0 != m[j].0
  }

  lemma ByKeyIsTotal<K(!new), V(!new)>(leq: (K, K) -> bool)
    requires TotalOrder(leq)
    ensures TotalOrder<(K, V)>(ByKey(leq))
  {
    var order: ((K, V), (K, V)) -> bool := ByKey(leq);
    forall a, b ensures order(a, b) || order(b, a) {
      assert leq(a.0, b.0) || leq(b.0, a.0);
    }
    forall a, b, c | order(a, b) && order(b, c) ensures order(a, c) {
      assert leq(a.0, b.0) && leq(b.0, c.0);
    }
  }

  /** Sorting a map's entries keeps them all and puts its distinct keys in order. */
  lemma SortByKey<K(!new), V(!new)>(m: JsMap<K, V>, leq: (K, K) -> bool)
    requires TotalOrder(leq) && Distinct(KeysOf(m))
    ensures forall p :: p in Sort(m, ByKey(leq)) <==> p in m
    ensures KeysAscend(Sort(m, ByKey(leq)), leq)
  {
    var order: ((K, V), (K, V)) -> bool := ByKey(leq);
    var sorted := Sort(m, order);
    ByKeyIsTotal<K, V>(leq);
    SortCorrect(m, order);
    forall i, j | 0 <= i < j < |m| ensures m[i] != m[j] {
      assert KeysOf(m)[i] != KeysOf(m)[j];
    }
    PermutationKeepsDistinct(m, sorted);
    forall p: (K, V) ensures p in sorted <==> p in m {
      assert p in sorted <==> p in multiset(sorted);
      assert p in m <==> p in multiset(m);
    }
    forall i, j | 0 <= i < j < |sorted| ensures leq(sorted[i].0, sorted[j].0) && sorted[i].0 != sorted[j].0 {
      assert order(sorted[i], sorted[j]);
      assert sorted[i] in sorted && sorted[j] in sorted;
      if sorted[i].0 == sorted[j].0 {
        SameKeySameEntry(m, sorted[i], sorted[j]);
      }
    }
  }

  lemma SameKeySameEntry<K, V>(m: JsMap<K, V>, p: (K, V), q: (K, V))
    requires Distinct(KeysOf(m)) && p in m && q in m && p.0 == q.0
    ensures p == q
  {
    var a :| 0 <= a < |m| && m[a] == p;
    var b :| 0 <= b < |m| && m[b] == q;
    assert KeysOf(m)[a] == p.0 && KeysOf(m)[b] == q.0;
  }
}
