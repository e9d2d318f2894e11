/** Small facts about map updates that the table and record models lean on. */
module Maps {

  /** A second update of the same key hides the first. */
  lemma UpdateTwice<K, V>(m: map<K, V>, k: K, v1: V, v2: V)
    ensures m[k := v1][k := v2] == m[k := v2]
  {
  }

  /** Overwriting both keys of a two-key map gives the map of the new values. */
  lemma Overwrite<K, V>(m: map<K, V>, k1: K, k2: K, w: V, v1: V, v2: V)
    requires m.Keys == {k1} && k1 != k2
    ensures m[k2 := w][k1 := v1][k2 := v2] == map[k1 := v1, k2 := v2]
  {
    var got := m[k2 := w][k1 := v1][k2 := v2];
    assert got.Keys == {k1, k2};
  }

  /** Two maps with the same keys and the same value at each key are equal. */
  lemma Extensional<K, V>(a: map<K, V>, b: map<K, V>)
    requires forall k :: k in a <==> k in b
    requires forall k :: k in a ==> a[k] == b[k]
    ensures a == b
  {
  }
}
