// Counting: references kept in maps, and sums over them.
module Counting {
  // The number recorded for a key, 0 when there is none.
  function Refs<K>(m: map<K, nat>, k: K): nat {
    if k in m then m[k] else 0
  }

  // A counter in a table: raised, entered at one, lowered, removed at zero.
  function Raised<K>(m: map<K, nat>, k: K): map<K, nat> {
    m[k := Refs(m, k) + 1]
  }

  function Lowered<K>(m: map<K, nat>, k: K): map<K, nat>
    requires Refs(m, k) > 0
  {
    if m[k] == 1 then m - {k} else m[k := m[k] - 1]
  }

  ghost predicate Positive<K(!new)>(m: map<K, nat>) {
    forall k :: k in m ==> m[k] > 0
  }

  ghost function Sum<K(!new)>(m: map<K, nat>): nat
    decreases |m.Keys|
  {
    if m.Keys == {} then 0
    else
      var k :| k in m;
      assert (m - {k}).Keys == m.Keys - {k};
      m[k] + Sum(m - {k})
  }

  lemma {:induction false} SumDrop<K(!new)>(m: map<K, nat>, k: K)
    requires k in m
    ensures Sum(m) == m[k] + Sum(m - {k})
    decreases |m.Keys|
  {
    var j :| j in m && Sum(m) == m[j] + Sum(m - {j});
    if j != k {
      assert (m - {j}).Keys == m.Keys - {j} && (m - {k}).Keys == m.Keys - {k};
      SumDrop(m - {j}, k);
      SumDrop(m - {k}, j);
      assert m - {j} - {k} == m - {k} - {j};
    }
  }

  // The part of a table whose keys satisfy a property.
  function Only<K(!new)>(m: map<K, nat>, p: K -> bool): map<K, nat> {
    map k | k in m && p(k) :: m[k]
  }

  // Raising or lowering one counter changes the sum by one where the key is counted in.
  lemma SumRaised<K(!new)>(m: map<K, nat>, k: K, p: K -> bool)
    ensures Sum(Only(Raised(m, k), p)) == Sum(Only(m, p)) + if p(k) then 1 else 0
  {
    var n := Raised(m, k);
    if p(k) {
      SumDrop(Only(n, p), k);
      assert Only(n, p) - {k} == Only(m, p) - {k};
      if k in m {
        SumDrop(Only(m, p), k);
      } else {
        assert Only(m, p) - {k} == Only(m, p);
      }
    } else {
      assert Only(n, p) == Only(m, p);
    }
  }

  lemma SumLowered<K(!new)>(m: map<K, nat>, k: K, p: K -> bool)
    requires Refs(m, k) > 0
    ensures Sum(Only(m, p)) == Sum(Only(Lowered(m, k), p)) + if p(k) then 1 else 0
  {
    var n := Lowered(m, k);
    assert m == Raised(n, k);
    SumRaised(n, k, p);
  }

  // The keys that hold a value.
  ghost function Holders<K(!new), V>(m: map<K, V>, v: V): set<K> {
    set k | k in m && m[k] == v
  }

  lemma HoldersPut<K(!new), V>(m: map<K, V>, k: K, v: V, w: V)
    requires k !in m
    ensures |Holders(m[k := v], w)| == |Holders(m, w)| + if v == w then 1 else 0
  {
    if v == w {
      assert Holders(m[k := v], w) == Holders(m, w) + {k};
    } else {
      assert Holders(m[k := v], w) == Holders(m, w);
    }
  }

  lemma HoldersDrop<K(!new), V>(m: map<K, V>, k: K, w: V)
    requires k in m
    ensures |Holders(m, w)| == |Holders(m - {k}, w)| + if m[k] == w then 1 else 0
  {
    HoldersPut(m - {k}, k, m[k], w);
    assert (m - {k})[k := m[k]] == m;
  }
}
