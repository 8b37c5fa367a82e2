/** Enumerating the rows of a table that satisfy a condition, the way
    `session.scalars(select(...).where(...)).all()` does: every matching row once, in an
    order the database chooses (here: the order the keys happen to be picked). */
module Listing {

  method Filter<K, V(==)>(m: map<K, V>, keep: V -> bool) returns (vs: seq<V>, ghost ks: seq<K>)
    ensures forall v :: v in vs ==> keep(v) && v in m.Values
    ensures forall k :: k in m && keep(m[k]) ==> m[k] in vs
    ensures |vs| == |set k | k in m && keep(m[k])|
    ensures |vs| == |ks|
    ensures forall i, j :: 0 <= i < j < |ks| ==> ks[i] != ks[j]
    ensures forall k :: k in ks <==> k in m && keep(m[k])
    ensures forall i :: 0 <= i < |ks| ==> ks[i] in m && vs[i] == m[ks[i]]
  {
    vs, ks := [], [];
    var rest := m.Keys;
    while rest != {}
      invariant rest <= m.Keys
      invariant |vs| == |ks|
      invariant forall i, j :: 0 <= i < j < |ks| ==> ks[i] != ks[j]
      invariant forall k :: k in ks <==> k in m && k !in rest && keep(m[k])
      invariant forall i :: 0 <= i < |ks| ==> ks[i] in m && vs[i] == m[ks[i]]
      decreases rest
    {
      var k :| k in rest;
      if keep(m[k]) {
        vs, ks := vs + [m[k]], ks + [k];
      }
      rest := rest - {k};
    }
    assert (set k | k in m && keep(m[k])) == (set i | 0 <= i < |ks| :: ks[i]);
    DistinctSize(ks);
  }

  /** A sequence without repetitions has as many elements as the set of its elements. */
  lemma {:induction false} DistinctSize<K>(ks: seq<K>)
    requires forall i, j :: 0 <= i < j < |ks| ==> ks[i] != ks[j]
    ensures |set i | 0 <= i < |ks| :: ks[i]| == |ks|
  {
    if |ks| > 0 {
      var init := ks[..|ks| - 1];
      DistinctSize(init);
      var all, front := set i | 0 <= i < |ks| :: ks[i], set i | 0 <= i < |init| :: init[i];
      assert all == front + {ks[|ks| - 1]};
      assert ks[|ks| - 1] !in front;
    }
  }
}
