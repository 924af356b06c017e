/**
 * Maps from a key to the list of values filed under it, in the order they
 * were filed. This is what the builder's
 * `map.computeIfAbsent(key, k -> new ArrayList<>()).add(value)` produces:
 * a key is present only once something has been filed under it.
 */
module Grouping {

  /** `map.get(key)`, with an absent key read as the empty list. */
  function Lookup<K, V>(m: map<K, seq<V>>, k: K): seq<V> {
    if k in m then m[k] else []
  }

  /** Files `v` at the end of the list under `k`, creating the list if needed. */
  function AppendAt<K(!new), V>(m: map<K, seq<V>>, k: K, v: V): (r: map<K, seq<V>>)
    ensures r.Keys == m.Keys + {k}
    ensures Lookup(r, k) == Lookup(m, k) + [v]
    ensures forall j :: j != k ==> Lookup(r, j) == Lookup(m, j)
  {
    m[k := Lookup(m, k) + [v]]
  }

  /** The map built by filing every (key, value) of `log`, first to last. */
  function Group<K(!new), V>(log: seq<(K, V)>): map<K, seq<V>> {
    if log == [] then map[]
    else
      var n := |log| - 1;
      AppendAt(Group(log[..n]), log[n].0, log[n].1)
  }

  /** The values of `log` whose key is `k`, in log order. */
  function ValuesAt<K(==), V>(log: seq<(K, V)>, k: K): seq<V> {
    if log == [] then []
    else
      var n := |log| - 1;
      ValuesAt(log[..n], k) + (if log[n].0 == k then [log[n].1] else [])
  }

  /**
   * Filing preserves registration order: the list under `k` is exactly the
   * values filed under `k`, oldest first, and `k` is present exactly when
   * something was filed under it.
   */
  lemma {:induction false} GroupLookup<K(!new), V>(log: seq<(K, V)>, k: K)
    ensures Lookup(Group(log), k) == ValuesAt(log, k)
    ensures k in Group(log) <==> exists i :: 0 <= i < |log| && log[i].0 == k
  {
    if log != [] {
      var n := |log| - 1;
      GroupLookup(log[..n], k);
      if k in Group(log[..n]) {
        var i :| 0 <= i < n && log[..n][i].0 == k;
        assert log[i].0 == k;
      }
      if exists i :: 0 <= i < |log| && log[i].0 == k {
        var i :| 0 <= i < |log| && log[i].0 == k;
        if i < n {
          assert log[..n][i].0 == k;
        }
      }
    }
  }
}
