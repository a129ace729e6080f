/** Sums over sequences and over maps. */
module Sums {

  function SumSeq(s: seq<nat>): nat {
    if s == [] then 0 else SumSeq(s[..|s| - 1]) + s[|s| - 1]
  }

  lemma {:induction false} SumSeqReplace(s: seq<nat>, i: nat, x: nat)
    requires i < |s|
    ensures SumSeq(s[i := x]) + s[i] == SumSeq(s) + x
  {
    var n := |s| - 1;
    if i == n {
      assert s[i := x][..n] == s[..n];
    } else {
      assert s[i := x][..n] == s[..n][i := x];
      SumSeqReplace(s[..n], i, x);
    }
  }

  lemma {:induction false} SumSeqZero(s: seq<nat>)
    requires forall i | 0 <= i < |s| :: s[i] == 0
    ensures SumSeq(s) == 0
  {
    if s == [] {
    } else {
      SumSeqZero(s[..|s| - 1]);
    }
  }

  ghost function SumMap<K(!new)>(m: map<K, nat>): nat
    decreases |m|
  {
    if m == map[] then 0
    else
      var k :| k in m;
      SmallerMap(m, k);
      m[k] + SumMap(m - {k})
  }

  lemma SmallerMap<K, V>(m: map<K, V>, k: K)
    requires k in m
    ensures |m - {k}| == |m| - 1
  {
    assert (m - {k}).Keys == m.Keys - {k};
    assert |m - {k}| == |(m - {k}).Keys|;
  }

  /** The sum does not depend on the order of the keys. */
  lemma {:induction false} SumTakeOut<K(!new)>(m: map<K, nat>, k: K)
    requires k in m
    ensures SumMap(m) == m[k] + SumMap(m - {k})
    decreases |m|
  {
    var j: K :| j in m && SumMap(m) == m[j] + SumMap(m - {j});
    if j != k {
      SmallerMap(m, j);
      SmallerMap(m, k);
      SumTakeOut(m - {j}, k);
      SumTakeOut(m - {k}, j);
      assert m - {j} - {k} == m - {k} - {j};
    }
  }

  lemma SumReplace<K(!new)>(m: map<K, nat>, k: K, x: nat)
    ensures SumMap(m[k := x]) + (if k in m then m[k] else 0) == SumMap(m) + x
  {
    SumTakeOut(m[k := x], k);
    if k in m {
      SumTakeOut(m, k);
      assert m[k := x] - {k} == m - {k};
    } else {
      assert m[k := x] - {k} == m;
    }
  }
}
