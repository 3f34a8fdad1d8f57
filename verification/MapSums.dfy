/** Balances held in maps and their totals, used by the ledger proofs. */
module MapSums {

  /** The value stored under `k`; an absent account holds nothing. */
  function Get<K>(m: map<K, nat>, k: K): nat {
    if k in m then m[k] else 0
  }

  /** Moving nothing leaves the map as it is, without opening an account. */
  function Add<K>(m: map<K, nat>, k: K, amount: nat): map<K, nat> {
    if amount == 0 then m else m[k := Get(m, k) + amount]
  }

  function Sub<K>(m: map<K, nat>, k: K, amount: nat): map<K, nat>
    requires amount <= Get(m, k)
  {
    if amount == 0 then m else m[k := Get(m, k) - amount]
  }

  ghost function Total<K(!new)>(m: map<K, nat>): nat {
    if m == map[] then 0 else
      var k :| k in m;
      m[k] + Total(m - {k})
  }

  lemma {:induction false} TotalRemove<K(!new)>(m: map<K, nat>, k: K)
    requires k in m
    ensures Total(m) == m[k] + Total(m - {k})
    decreases |m|
  {
    var j :| j in m && Total(m) == m[j] + Total(m - {j});
    if j != k {
      TotalRemove(m - {j}, k);
      TotalRemove(m - {k}, j);
      assert m - {j} - {k} == m - {k} - {j};
    }
  }

  /** Overwriting one entry changes the total by exactly the difference. */
  lemma TotalUpdate<K(!new)>(m: map<K, nat>, k: K, v: nat)
    ensures Total(m[k := v]) + Get(m, k) == Total(m) + v
  {
    var m' := m[k := v];
    TotalRemove(m', k);
    if k in m {
      TotalRemove(m, k);
      assert m' - {k} == m - {k};
    } else {
      assert m' - {k} == m;
    }
  }
}
