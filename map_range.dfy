/** Go leaves the order of `for k := range m` unspecified.  The model lets the
    runtime pick any order: `RangeOrder` chooses the keys one at a time, so
    every property proved about code that ranges over a map holds for every
    visit order. */
module MapRange {

  /** `s[i]`, named so that `Distinct` is only used where a proof asks for
      two positions explicitly. */
  ghost function At<K>(s: seq<K>, i: int): K
    requires 0 <= i < |s|
  {
    s[i]
  }

  /** No key occurs twice. */
  ghost predicate Distinct<K>(s: seq<K>) {
    forall i, j | 0 <= i < j < |s| :: At(s, i) != At(s, j)
  }

  /** Dropping the first key keeps the rest distinct, and the first key does
      not come back. */
  lemma DistinctTail<K>(s: seq<K>)
    requires Distinct(s) && s != []
    ensures Distinct(s[1..])
    ensures forall j | 0 <= j < |s| - 1 :: s[1..][j] != s[0]
  {
    forall i, j | 0 <= i < j < |s| - 1
      ensures At(s[1..], i) != At(s[1..], j)
    {
      assert At(s, i + 1) != At(s, j + 1);
    }
    forall j | 0 <= j < |s| - 1
      ensures s[1..][j] != s[0]
    {
      assert At(s, 0) != At(s, j + 1);
    }
  }

  /** `s` visits every key of `keys` exactly once. */
  ghost predicate Enumerates<K>(s: seq<K>, keys: set<K>) {
    && Distinct(s)
    && (forall i | 0 <= i < |s| :: s[i] in keys)
    && (forall k | k in keys :: k in s)
  }

  /** The order in which one `range` over `m` visits its keys. */
  method RangeOrder<K, V>(m: map<K, V>) returns (order: seq<K>)
    ensures Enumerates(order, m.Keys)
  {
    order := [];
    var rest := m.Keys;
    while rest != {}
      invariant rest <= m.Keys
      invariant Distinct(order)
      invariant forall i | 0 <= i < |order| :: order[i] in m.Keys && order[i] !in rest
      invariant forall k | k in m.Keys && k !in rest :: k in order
      decreases rest
    {
      var k :| k in rest;
      forall i, j | 0 <= i < j < |order| + 1
        ensures At(order + [k], i) != At(order + [k], j)
      {
        if j < |order| {
          assert At(order, i) != At(order, j);
        }
      }
      order := order + [k];
      rest := rest - {k};
    }
  }
}
