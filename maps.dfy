/** Dictionary updates shared by the two registries of the data source. */
module Maps {

  /** `m[k] = v` on a Swift dictionary: the new value replaces any old one, nothing else moves. */
  function Assign<K, V>(m: map<K, V>, k: K, v: V): (r: map<K, V>)
    ensures k in r && r[k] == v
    ensures r.Keys == m.Keys + {k}
    ensures forall k' :: k' != k && k' in m ==> r[k'] == m[k']
  {
    m[k := v]
  }

  /** `m[k] = nil` on a Swift dictionary: drops the key whatever it held. */
  function Remove<K, V>(m: map<K, V>, k: K): (r: map<K, V>)
    ensures k !in r
    ensures r.Keys == m.Keys - {k}
    ensures forall k' :: k' in r ==> r[k'] == m[k']
  {
    m - {k}
  }

  /** Assigns `v` to each key of `ks` in turn, first to last. */
  function AssignAll<K, V>(m: map<K, V>, ks: seq<K>, v: V): (r: map<K, V>)
    ensures forall i :: 0 <= i < |ks| ==> ks[i] in r && r[ks[i]] == v
    ensures r.Keys == m.Keys + set i | 0 <= i < |ks| :: ks[i]
    ensures forall k :: k !in ks && k in m ==> r[k] == m[k]
    decreases |ks|
  {
    if ks == [] then m
    else Assign(AssignAll(m, ks[..|ks| - 1], v), ks[|ks| - 1], v)
  }

  /** Assigning a list and then one more key is assigning the longer list. */
  lemma AssignAllSnoc<K, V>(m: map<K, V>, ks: seq<K>, k: K, v: V)
    ensures AssignAll(m, ks + [k], v) == Assign(AssignAll(m, ks, v), k, v)
  {
  }
}
