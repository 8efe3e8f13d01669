/** Sums over the values of a finite map, independent of the order they are taken in. */
module MapSum {

  ghost function Sum<K>(m: map<K, nat>): nat
    decreases |m|
  {
    if m == map[] then 0 else
    var k :| k in m;
    assert |m - {k}| < |m| by { Shrinks(m, k); }
    m[k] + Sum(m - {k})
  }

  lemma Shrinks<K, V>(m: map<K, V>, k: K)
    requires k in m
    ensures |m - {k}| == |m| - 1
  {
    assert m.Keys == (m - {k}).Keys + {k};
  }

  /** Any key may be taken out first. */
  lemma {:induction false} TakeOut<K>(m: map<K, nat>, k: K)
    requires k in m
    ensures Sum(m) == m[k] + Sum(m - {k})
    decreases |m|
  {
    Shrinks(m, k);
    var c :| c in m && Sum(m) == m[c] + Sum(m - {c});
    if c != k {
      Shrinks(m, c);
      TakeOut(m - {c}, k);
      TakeOut(m - {k}, c);
      assert m - {c} - {k} == m - {k} - {c};
    }
  }

  lemma Insert<K>(m: map<K, nat>, k: K, n: nat)
    ensures Sum(m[k := n]) == Sum(m - {k}) + n
    ensures k in m ==> Sum(m[k := n]) == Sum(m) - m[k] + n
    ensures k !in m ==> Sum(m[k := n]) == Sum(m) + n
  {
    TakeOut(m[k := n], k);
    assert m[k := n] - {k} == m - {k};
    if k in m {
      TakeOut(m, k);
    } else {
      assert m - {k} == m;
    }
  }

  lemma {:induction false} SumIsBounded<K>(m: map<K, nat>, c: nat)
    requires forall k :: k in m ==> m[k] <= c
    ensures Sum(m) <= c * |m|
    decreases |m|
  {
    if m != map[] {
      var k :| k in m;
      Shrinks(m, k);
      TakeOut(m, k);
      var rest := m - {k};
      SumIsBounded(rest, c);
      OneMore(c, |rest|);
    }
  }

  lemma OneMore(c: nat, n: nat)
    ensures c * (n + 1) == c * n + c
  {
  }
}
