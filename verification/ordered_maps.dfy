/** Insertion-ordered maps: the behaviour of a plain JavaScript object used
    as a dictionary (`obj[k] = v`, `Object.keys`, `Object.values`, `k in obj`).
    Assigning to an existing key keeps its position; a new key goes last. */
module OrderedMaps {
  import opened Wrappers
  import opened Seqs

  datatype OMap<K, V> = OMap(keys: seq<K>, items: map<K, V>)

  /** The keys are listed once each, and are exactly the map's domain */
  predicate Valid<K(==,!new), V>(m: OMap<K, V>) {
    && Distinct(m.keys)
    && (forall k | k in m.items :: k in m.keys)
    && (forall k | k in m.keys :: k in m.items)
  }

  type OrderedMap<K(==,!new), V> = m: OMap<K, V> | Valid(m) witness OMap([], map[])

  function Empty<K(==,!new), V>(): (m: OrderedMap<K, V>)
    ensures m.keys == [] && m.items == map[]
  {
    OMap([], map[])
  }

  /** `obj[k]`: the value stored under `k`, or nothing */
  function Get<K(==,!new), V>(m: OrderedMap<K, V>, k: K): (r: Option<V>)
    ensures r.Some? <==> k in m.keys
    ensures r.Some? ==> r.value == m.items[k]
  {
    if k in m.items then Some(m.items[k]) else None
  }

  /** `obj[k] = v` */
  function Put<K(==,!new), V>(m: OrderedMap<K, V>, k: K, v: V): (r: OrderedMap<K, V>)
    ensures r.items == m.items[k := v]
    ensures k in m.items ==> r.keys == m.keys
    ensures k !in m.items ==> r.keys == m.keys + [k]
  {
    if k in m.items then OMap(m.keys, m.items[k := v])
    else OMap(m.keys + [k], m.items[k := v])
  }

  /** Reading back after `obj[k] = v` */
  lemma GetPut<K(!new), V>(m: OrderedMap<K, V>, k: K, v: V, k': K)
    ensures Get(Put(m, k, v), k') == if k' == k then Some(v) else Get(m, k')
  {
  }

  /** `Object.values(obj)`: the values in key order */
  function Values<K(==,!new), V>(m: OrderedMap<K, V>): (vs: seq<V>)
    ensures |vs| == |m.keys|
    ensures forall i | 0 <= i < |m.keys| :: vs[i] == m.items[m.keys[i]]
  {
    seq(|m.keys|, i requires 0 <= i < |m.keys| => m.items[m.keys[i]])
  }

  /** `Object.keys(obj).length` is the number of distinct keys stored */
  lemma {:induction false} SizeIsCardinality<K(!new), V>(m: OrderedMap<K, V>)
    ensures |m.keys| == |m.items.Keys|
  {
    DistinctCardinality(m.keys);
    assert m.items.Keys == set k | k in m.keys;
  }

  lemma {:induction false} DistinctCardinality<K(!new)>(ks: seq<K>)
    requires Distinct(ks)
    ensures |set k | k in ks| == |ks|
    decreases |ks|
  {
    if ks != [] {
      var n := |ks| - 1;
      assert Distinct(ks[..n]);
      DistinctCardinality(ks[..n]);
      assert (set k | k in ks) == (set k | k in ks[..n]) + {ks[n]};
      assert ks[n] !in (set k | k in ks[..n]);
    }
  }

  /** A duplicate-free list of exactly the elements of a set is as long as
      the set is large */
  lemma DistinctListsSet<K(!new)>(ks: seq<K>, s: set<K>)
    requires Distinct(ks)
    requires forall k :: k in ks <==> k in s
    ensures |ks| == |s|
  {
    DistinctCardinality(ks);
    assert (set k | k in ks) == s;
  }

  /** Putting each element's value under its key, first element first: the
      shape of a `reduce` that fills an object */
  function PutEach<T, K(==,!new), V>(m: OrderedMap<K, V>, xs: seq<T>, key: T -> K, val: T -> V): OrderedMap<K, V>
    decreases |xs|
  {
    if xs == [] then m else PutEach(Put(m, key(xs[0]), val(xs[0])), xs[1..], key, val)
  }

  /** The last element of `xs` whose key is `k` */
  function LastKeyed<T(==), K(==)>(xs: seq<T>, key: T -> K, k: K): (r: Option<T>)
    ensures r.Some? ==> r.value in xs && key(r.value) == k
    ensures r.None? <==> forall i | 0 <= i < |xs| :: key(xs[i]) != k
    decreases |xs|
  {
    if xs == [] then None
    else if key(xs[|xs| - 1]) == k then Some(xs[|xs| - 1])
    else LastKeyed(xs[..|xs| - 1], key, k)
  }

  /** Putting one more element at the end */
  lemma {:induction false} PutEachSnoc<T, K(!new), V>(m: OrderedMap<K, V>, xs: seq<T>, key: T -> K, val: T -> V, x: T)
    ensures PutEach(m, xs + [x], key, val) == Put(PutEach(m, xs, key, val), key(x), val(x))
    decreases |xs|
  {
    if xs == [] {
      assert PutEach(m, [x], key, val) == PutEach(Put(m, key(x), val(x)), [], key, val);
    } else {
      var m' := Put(m, key(xs[0]), val(xs[0]));
      assert (xs + [x])[1..] == xs[1..] + [x];
      assert PutEach(m, xs + [x], key, val) == PutEach(m', xs[1..] + [x], key, val);
      PutEachSnoc(m', xs[1..], key, val, x);
    }
  }

  /** After the fold each key holds the value of the last element with that
      key; keys no element has keep what they held before. */
  lemma {:induction false} PutEachGet<T, K(!new), V>(m: OrderedMap<K, V>, xs: seq<T>, key: T -> K, val: T -> V, k: K)
    ensures LastKeyed(xs, key, k).Some? ==> Get(PutEach(m, xs, key, val), k) == Some(val(LastKeyed(xs, key, k).value))
    ensures LastKeyed(xs, key, k).None? ==> Get(PutEach(m, xs, key, val), k) == Get(m, k)
    decreases |xs|
  {
    if xs != [] {
      var init := xs[..|xs| - 1];
      assert xs == init + [xs[|xs| - 1]];
      PutEachSnoc(m, init, key, val, xs[|xs| - 1]);
      PutEachGet(m, init, key, val, k);
    }
  }
}
