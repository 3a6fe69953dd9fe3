/** The store underneath the pool (safemap.go): a map guarded by a
    reader/writer lock.  The lock only serialises access, so the model is a
    sequential class whose one field `bm` is the guarded map. */
module SafeMaps {
  import opened Wrappers

  class SafeMap<K(==), V(==)> {
    var bm: map<K, V>

    /** NewSafeMap: an empty map. */
    constructor ()
      ensures bm == map[]
    {
      bm := map[];
    }

    /** The value stored under `k`, or nothing (Go's nil) when `k` is absent. */
    function Get(k: K): (r: Option<V>)
      reads this
      ensures r.Some? <==> k in bm
      ensures r.Some? ==> r.value == bm[k]
    {
      if k in bm then Some(bm[k]) else None
    }

    /** Stores `v` under `k`; reports whether that changed the map. */
    method Set(k: K, v: V) returns (changed: bool)
      modifies this
      ensures bm == old(bm)[k := v]
      ensures changed <==> k !in old(bm) || old(bm)[k] != v
      ensures !changed ==> bm == old(bm)
    {
      if k !in bm {
        bm := bm[k := v];
        changed := true;
      } else if bm[k] != v {
        bm := bm[k := v];
        changed := true;
      } else {
        changed := false;
      }
    }

    /** Whether `k` is a key of the map. */
    function Check(k: K): (r: bool)
      reads this
      ensures r <==> Get(k).Some?
    {
      k in bm
    }

    /** Removes `k`; a missing key is left alone. */
    method Delete(k: K)
      modifies this
      ensures bm == old(bm) - {k}
    {
      bm := bm - {k};
    }

    /** A copy of the contents, built entry by entry.  The copy is a value:
        later changes to the store cannot reach it. */
    method Items() returns (r: map<K, V>)
      ensures r == bm
    {
      r := map[];
      var rest := bm.Keys;
      while rest != {}
        invariant rest <= bm.Keys
        invariant r.Keys == bm.Keys - rest
        invariant forall k | k in r :: r[k] == bm[k]
        decreases rest
      {
        var k :| k in rest;
        r := r[k := bm[k]];
        rest := rest - {k};
      }
    }

    /** The number of keys. */
    function Count(): (n: nat)
      reads this
      ensures n == |bm.Keys|
    {
      |bm|
    }
  }

  /** A snapshot taken by Items is not changed by a later Set or Delete. */
  method ItemsIsSnapshot<K(==), V(==)>(m: SafeMap<K, V>, k: K, v: V, gone: K) returns (snap: map<K, V>)
    modifies m
    ensures snap == old(m.bm)
    ensures m.bm == old(m.bm)[k := v] - {gone}
  {
    snap := m.Items();
    var _ := m.Set(k, v);
    m.Delete(gone);
  }

  /** After `Set(k, v)` the key maps to `v`, every other key is untouched, and
      the count grows by one exactly when `k` was new. */
  lemma SetEffect<K, V>(m: map<K, V>, k: K, v: V)
    ensures k in m[k := v] && m[k := v][k] == v
    ensures m[k := v] - {k} == m - {k}
    ensures |m[k := v]| == |m| + (if k in m then 0 else 1)
  {
  }

  /** After `Delete(k)` the key is gone, every other key is untouched, and
      the count drops by one exactly when `k` was present. */
  lemma DeleteEffect<K, V>(m: map<K, V>, k: K)
    ensures k !in m - {k}
    ensures forall j | j in m && j != k :: j in m - {k} && (m - {k})[j] == m[j]
    ensures |m - {k}| == |m| - (if k in m then 1 else 0)
  {
  }
}
