/** Characterisations of single-entry changes to a map, stated pointwise so that
    "exactly this entry changed and nothing else did" can be read off directly. */
module Maps {

  /** `m'` is `m` with one new entry `k := v`; every old entry is kept. */
  predicate Inserted<K, V(==)>(m: map<K, V>, m': map<K, V>, k: K, v: V) {
    && k !in m
    && m'.Keys == m.Keys + {k}
    && k in m' && m'[k] == v
    && forall j :: j in m ==> m'[j] == m[j]
  }

  /** `m'` is `m` with the existing entry at `k` now holding `v`; every other entry is kept. */
  predicate Replaced<K, V(==)>(m: map<K, V>, m': map<K, V>, k: K, v: V) {
    && k in m
    && m'.Keys == m.Keys
    && m'[k] == v
    && forall j :: j in m && j != k ==> m'[j] == m[j]
  }

  /** `m'` is `m` without the existing entry at `k`; every other entry is kept. */
  predicate Removed<K, V(==)>(m: map<K, V>, m': map<K, V>, k: K) {
    && k in m
    && m'.Keys == m.Keys - {k}
    && forall j :: j in m' ==> m'[j] == m[j]
  }
}
