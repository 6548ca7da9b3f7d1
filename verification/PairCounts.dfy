/** Maps that count: pairs of nodes, or anything else. */
module PairCounts {
  type Pair = (nat, nat)

  ghost function Get<K>(m: map<K, nat>, k: K): nat {
    if k in m then m[k] else 0
  }

  ghost predicate Positive<K>(m: map<K, nat>) {
    forall k :: k in m ==> m[k] > 0
  }

  function Bump<K(!new)>(m: map<K, nat>, k: K): (r: map<K, nat>)
    ensures Positive(m) ==> Positive(r)
    ensures Get(r, k) == Get(m, k) + 1 && forall x :: x != k ==> Get(r, x) == Get(m, x)
  {
    m[k := (if k in m then m[k] else 0) + 1]
  }
}
