/** Sums over finite maps: the byte accounts of the ledger and of the magazine. */
module Sums {

  ghost function Sum<K>(m: map<K, nat>): nat {
    if |m| == 0 then 0
    else
      var k :| k in m;
      m[k] + Sum(m - {k})
  }

  lemma RemoveTwice<K>(m: map<K, nat>, j: K, k: K)
    ensures (m - {j}) - {k} == (m - {k}) - {j}
  {
  }

  lemma SumUnfold<K>(m: map<K, nat>) returns (j: K)
    requires |m| > 0
    ensures j in m && Sum(m) == m[j] + Sum(m - {j})
  {
    j :| j in m && Sum(m) == m[j] + Sum(m - {j});
  }

  lemma {:induction false} SumWithout<K>(m: map<K, nat>, k: K)
    requires k in m
    ensures Sum(m) == m[k] + Sum(m - {k})
    decreases |m|
  {
    var j := SumUnfold(m);
    if j != k {
      var a, c := m - {j}, m - {k};
      Smaller(m, j);
      SumWithout(a, k);
      Smaller(m, k);
      SumWithout(c, j);
      RemoveTwice(m, j, k);
    }
  }

  lemma Smaller<K>(m: map<K, nat>, k: K)
    requires k in m
    ensures |m - {k}| < |m|
  {
    assert (m - {k}).Keys == m.Keys - {k};
    assert |(m - {k}).Keys| == |m.Keys| - 1;
    assert |m| == |m.Keys| && |m - {k}| == |(m - {k}).Keys|;
  }

  /** Writing one key moves the sum by the difference. */
  lemma SumUpdate<K>(m: map<K, nat>, k: K, v: nat)
    ensures Sum(m[k := v]) == Sum(m - {k}) + v
    ensures k in m ==> Sum(m) == m[k] + Sum(m - {k})
    ensures k !in m ==> Sum(m[k := v]) == Sum(m) + v
  {
    var m' := m[k := v];
    SumWithout(m', k);
    assert m' - {k} == m - {k};
    if k in m { SumWithout(m, k); } else { assert m - {k} == m; }
  }

  /** The part of a map on a set of keys. */
  ghost function On<K>(m: map<K, nat>, s: set<K>): map<K, nat> {
    map k | k in m && k in s :: m[k]
  }

  lemma SplitIn<K>(m: map<K, nat>, s: set<K>, k: K)
    requires k in m && k in s
    ensures On(m, s) - {k} == On(m - {k}, s) && m - s == m - {k} - s
  {
  }

  lemma SplitOut<K>(m: map<K, nat>, s: set<K>, k: K)
    requires k in m && k !in s
    ensures (m - s) - {k} == m - {k} - s && On(m, s) == On(m - {k}, s)
  {
  }

  lemma {:induction false} SumSplit<K>(m: map<K, nat>, s: set<K>)
    ensures Sum(m) == Sum(On(m, s)) + Sum(m - s)
    decreases |m|
  {
    if |m| == 0 {
      assert On(m, s) == map[] && m - s == map[];
    } else {
      var k := SumUnfold(m);
      Smaller(m, k);
      SumSplit(m - {k}, s);
      if k in s {
        SumWithout(On(m, s), k);
        SplitIn(m, s, k);
      } else {
        SumWithout(m - s, k);
        SplitOut(m, s, k);
      }
    }
  }

  lemma SumSubset<K>(m: map<K, nat>, s: set<K>)
    ensures Sum(On(m, s)) <= Sum(m)
  {
    SumSplit(m, s);
  }

  lemma OnPart<K>(m: map<K, nat>, s: set<K>, t: set<K>)
    requires t <= s
    ensures On(On(m, s), t) == On(m, t)
    ensures On(m, s) - t == On(m - t, s - t)
  {
  }

  lemma OnUpdate<K>(m: map<K, nat>, k: K, v: nat, s: set<K>)
    requires k !in s
    ensures On(m[k := v], s) == On(m, s)
  {
  }

  lemma OnAll<K>(m: map<K, nat>)
    ensures On(m, m.Keys) == m
  {
  }

  lemma OnOneMore<K>(m: map<K, nat>, s: set<K>, k: K)
    requires k in m && k !in s
    ensures k in On(m, s + {k}) && On(m, s + {k}) - {k} == On(m, s)
  {
  }

  lemma OnNone<K>(m: map<K, nat>)
    ensures On(m, {}) == map[]
  {
  }

  lemma OnWrite<K>(m: map<K, nat>, k: K, v: nat, s: set<K>)
    requires k in m && k in s
    ensures On(m[k := v], s) == On(m, s)[k := v]
  {
  }

  lemma OnOn<K>(m: map<K, nat>, s: set<K>, t: set<K>)
    ensures On(On(m, s), t) == On(m, s * t) && On(m, s) - t == On(m, s - t)
  {
  }

  lemma OnGone<K>(m: map<K, nat>, gone: set<K>, s: set<K>)
    ensures On(m - gone, s - gone) == On(m - gone * s, s - gone * s)
  {
  }
}
