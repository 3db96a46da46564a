/**
 * Snapshots of a `HashMap`'s values, and filters over them. Rust gives no
 * iteration order, so a snapshot is described by the order in which it visited
 * the keys: `order` lists every key exactly once, and the snapshot is the values
 * in that order.
 */
module Maps {

  predicate NoDuplicates<K(==)>(s: seq<K>) {
    forall i, j :: 0 <= i < j < |s| ==> s[i] != s[j]
  }

  /** `order` lists each key of `m` exactly once. */
  predicate Enumerates<K, V>(m: map<K, V>, order: seq<K>) {
    && |order| == |m|
    && NoDuplicates(order)
    && (forall k :: k in order ==> k in m)
    && (forall k :: k in m ==> k in order)
  }

  /** The values of `m` in the order `order` visits their keys. */
  function ValuesOf<K, V>(m: map<K, V>, order: seq<K>): (r: seq<V>)
    requires forall k :: k in order ==> k in m
    ensures |r| == |order|
    ensures forall i :: 0 <= i < |order| ==> r[i] == m[order[i]]
  {
    if order == [] then []
    else ValuesOf(m, order[..|order| - 1]) + [m[order[|order| - 1]]]
  }

  /** A value is in a snapshot that visits every key exactly when `m` stores it under some key. */
  lemma InSnapshot<K, V>(m: map<K, V>, order: seq<K>, v: V)
    requires Enumerates(m, order)
    ensures v in ValuesOf(m, order) <==> v in m.Values
  {
    var r := ValuesOf(m, order);
    if v in m.Values {
      var k :| k in m && m[k] == v;
      var i :| 0 <= i < |order| && order[i] == k;
      assert r[i] == v;
    }
    if v in r {
      var i :| 0 <= i < |r| && r[i] == v;
      assert m[order[i]] == v;
    }
  }

  /** A snapshot that visits every key holds every value of `m`, and nothing else. */
  lemma SnapshotValues<K, V>(m: map<K, V>, order: seq<K>)
    requires Enumerates(m, order)
    ensures forall v :: v in ValuesOf(m, order) <==> v in m.Values
  {
    forall v {
      InSnapshot(m, order, v);
    }
  }

  /**
   * `values().cloned().collect()`: visits the keys one at a time, in an order the
   * caller cannot predict, and returns the values together with that order.
   */
  method Snapshot<K(==), V(==)>(m: map<K, V>) returns (r: seq<V>, ghost order: seq<K>)
    ensures |r| == |m|
    ensures forall v :: v in r <==> v in m.Values
    ensures Enumerates(m, order)
    ensures r == ValuesOf(m, order)
  {
    var rest := m.Keys;
    r, order := [], [];
    while rest != {}
      invariant rest <= m.Keys
      invariant |order| + |rest| == |m|
      invariant NoDuplicates(order)
      invariant forall k :: k in order ==> k in m && k !in rest
      invariant forall k :: k in m ==> k in rest || k in order
      invariant r == ValuesOf(m, order)
      decreases rest
    {
      var k :| k in rest;
      assert (order + [k])[..|order|] == order;
      r := r + [m[k]];
      order := order + [k];
      rest := rest - {k};
    }
    SnapshotValues(m, order);
  }

  /** The elements of `s` that satisfy `p`, in the order of `s` (`iter().filter(p)`). */
  function Filter<T>(s: seq<T>, p: T -> bool): (r: seq<T>)
    ensures |r| <= |s|
  {
    if s == [] then []
    else Filter(s[..|s| - 1], p) + (if p(s[|s| - 1]) then [s[|s| - 1]] else [])
  }

  /** The filter keeps exactly the elements that satisfy `p`, each as often as it occurs. */
  lemma {:induction false} FilterSelects<T>(s: seq<T>, p: T -> bool)
    ensures forall x :: x in Filter(s, p) <==> x in s && p(x)
    ensures forall x :: multiset(Filter(s, p))[x] == if p(x) then multiset(s)[x] else 0
  {
    if s != [] {
      var init, last := s[..|s| - 1], s[|s| - 1];
      assert s == init + [last];
      FilterSelects(init, p);
    }
  }

  /** Storing under a key adds an entry only when the key is new. */
  lemma UpdateSize<K, V>(m: map<K, V>, k: K, v: V)
    ensures |m[k := v]| == if k in m then |m| else |m| + 1
  {
    if k in m {
      assert m[k := v].Keys == m.Keys;
    } else {
      assert m[k := v].Keys == m.Keys + {k};
    }
  }

  /** Removing a key drops one entry when it was present, none otherwise. */
  lemma RemoveSize<K, V>(m: map<K, V>, k: K)
    ensures |m - {k}| == if k in m then |m| - 1 else |m|
  {
    if k in m {
      assert (m - {k}).Keys == m.Keys - {k};
    } else {
      assert (m - {k}).Keys == m.Keys;
    }
  }
}
