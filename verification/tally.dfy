/**
 Sums over a vote tally. A tally maps each option to its count; the Python
 code adds the counts with `sum(votos.values())`, whose order of summation
 does not matter, so the sum is defined here by removing an arbitrary key.
 */
module Tally {

  /** The sum of every count in `m`. */
  ghost function Sum<K>(m: map<K, nat>): nat
    decreases m.Keys
  {
    if m == map[] then 0
    else
      var k :| k in m;
      m[k] + Sum(m - {k})
  }

  /** Whichever key is removed first, the sum comes out the same. */
  lemma {:induction false} SumRemove<K>(m: map<K, nat>, k: K)
    requires k in m
    ensures Sum(m) == m[k] + Sum(m - {k})
    decreases m.Keys
  {
    var j :| j in m && Sum(m) == m[j] + Sum(m - {j});
    if j != k {
      SumRemove(m - {j}, k);
      SumRemove(m - {k}, j);
      assert (m - {j}) - {k} == (m - {k}) - {j};
    }
  }

  /** Adding one to an existing count adds one to the sum. */
  lemma SumIncrement<K>(m: map<K, nat>, k: K)
    requires k in m
    ensures Sum(m[k := m[k] + 1]) == Sum(m) + 1
  {
    var m' := m[k := m[k] + 1];
    SumRemove(m, k);
    SumRemove(m', k);
    assert m' - {k} == m - {k};
  }

  /** Inserting a new key with count one adds one to the sum. */
  lemma SumInsert<K>(m: map<K, nat>, k: K)
    requires k !in m
    ensures Sum(m[k := 1]) == Sum(m) + 1
  {
    var m' := m[k := 1];
    SumRemove(m', k);
    assert m' - {k} == m;
  }

  /** A tally whose every count is zero sums to zero. */
  lemma {:induction false} SumZero<K>(m: map<K, nat>)
    requires forall k :: k in m ==> m[k] == 0
    ensures Sum(m) == 0
    decreases m.Keys
  {
    if m != map[] {
      var k :| k in m;
      SumRemove(m, k);
      SumZero(m - {k});
    }
  }
}
