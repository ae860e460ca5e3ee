/**
 * Category histograms: a `Dictionary<string, int>` from category to number
 * of lines, built by incrementing one key per parsed line and merged across
 * files by summing counts key by key.
 */
module Histogram {

  type Counts = map<string, nat>

  /** The count of `k`, zero when the key is absent. */
  function Get(m: Counts, k: string): nat {
    if k in m then m[k] else 0
  }

  /** Every key that is present was counted at least once. */
  predicate Positive(m: Counts) {
    forall k :: k in m ==> m[k] >= 1
  }

  /** The sum of all counts. */
  ghost function Total(m: Counts): nat
    decreases |m|
  {
    if m == map[] then 0
    else
      var k :| k in m;
      assert |(m - {k}).Keys| < |m.Keys| by {
        assert (m - {k}).Keys == m.Keys - {k};
      }
      m[k] + Total(m - {k})
  }

  /** The total can be computed by taking out any key first. */
  lemma {:induction false} TotalRemove(m: Counts, k: string)
    requires k in m
    ensures Total(m) == m[k] + Total(m - {k})
    decreases |m|
  {
    var j :| j in m && Total(m) == m[j] + Total(m - {j});
    if j != k {
      assert (m - {j}).Keys == m.Keys - {j};
      assert (m - {k}).Keys == m.Keys - {k};
      TotalRemove(m - {j}, k);
      TotalRemove(m - {k}, j);
      assert m - {j} - {k} == m - {k} - {j};
    }
  }

  /** Adding `v` to one key adds `v` to the total. */
  lemma AddTotal(m: Counts, k: string, v: nat)
    ensures Total(m[k := Get(m, k) + v]) == Total(m) + v
  {
    var m' := m[k := Get(m, k) + v];
    TotalRemove(m', k);
    assert m' - {k} == m - {k};
    if k in m {
      TotalRemove(m, k);
    } else {
      assert m - {k} == m;
    }
  }

  /** `counts[c]++`, creating the entry at zero first when it is missing. */
  function Increment(m: Counts, k: string): (r: Counts)
    ensures r.Keys == m.Keys + {k}
    ensures Get(r, k) == Get(m, k) + 1
    ensures forall j :: j != k ==> Get(r, j) == Get(m, j)
    ensures Positive(m) ==> Positive(r)
  {
    m[k := Get(m, k) + 1]
  }

  /** Counting one more occurrence adds one to the total. */
  lemma IncrementTotal(m: Counts, k: string)
    ensures Total(Increment(m, k)) == Total(m) + 1
  {
    AddTotal(m, k, 1);
  }

  /**
   * `dict1.Concat(dict2).GroupBy(key).ToDictionary(key, sum)`: the union of
   * the keys, with the counts of a shared key added.
   */
  function UnionSum(a: Counts, b: Counts): (r: Counts)
    ensures r.Keys == a.Keys + b.Keys
    ensures forall k :: Get(r, k) == Get(a, k) + Get(b, k)
  {
    map k | k in a.Keys + b.Keys :: Get(a, k) + Get(b, k)
  }

  lemma UnionSumCommutative(a: Counts, b: Counts)
    ensures UnionSum(a, b) == UnionSum(b, a)
  {
  }

  lemma UnionSumAssociative(a: Counts, b: Counts, c: Counts)
    ensures UnionSum(UnionSum(a, b), c) == UnionSum(a, UnionSum(b, c))
  {
  }

  lemma UnionSumIdentity(a: Counts)
    ensures UnionSum(a, map[]) == a && UnionSum(map[], a) == a
  {
  }

  lemma UnionSumPositive(a: Counts, b: Counts)
    requires Positive(a) && Positive(b)
    ensures Positive(UnionSum(a, b))
  {
  }

  /** Moving one key's count from the right operand to the left one. */
  lemma UnionSumShift(a: Counts, b: Counts, k: string)
    requires k in b
    ensures UnionSum(a, b) == UnionSum(a[k := Get(a, k) + b[k]], b - {k})
  {
    var a', b' := a[k := Get(a, k) + b[k]], b - {k};
    var l, r := UnionSum(a, b), UnionSum(a', b');
    assert b'.Keys == b.Keys - {k};
    assert l.Keys == r.Keys;
    forall j | j in l
      ensures l[j] == r[j]
    {
      assert Get(l, j) == Get(a, j) + Get(b, j);
      assert Get(r, j) == Get(a', j) + Get(b', j);
    }
  }

  /** Moving one key's count between operands keeps the sum of the totals. */
  lemma TotalShift(a: Counts, b: Counts, k: string)
    requires k in b
    ensures Total(a[k := Get(a, k) + b[k]]) + Total(b - {k}) == Total(a) + Total(b)
  {
    TotalRemove(b, k);
    AddTotal(a, k, b[k]);
  }

  /** Merging two histograms loses and invents no lines: the totals add up. */
  lemma {:induction false} UnionSumTotal(a: Counts, b: Counts)
    ensures Total(UnionSum(a, b)) == Total(a) + Total(b)
    decreases |b|
  {
    if b == map[] {
      assert UnionSum(a, b) == a;
    } else {
      var k :| k in b;
      var a', b' := a[k := Get(a, k) + b[k]], b - {k};
      RemoveShrinks(b, k);
      UnionSumTotal(a', b');
      UnionSumTotalStep(a, b, k);
    }
  }

  /** Removing a present key makes a map smaller. */
  lemma RemoveShrinks(b: Counts, k: string)
    requires k in b
    ensures |b - {k}| < |b|
  {
    assert (b - {k}).Keys == b.Keys - {k};
  }

  /** The step of the proof above: the total is kept when one key moves from `b` to `a`. */
  lemma UnionSumTotalStep(a: Counts, b: Counts, k: string)
    requires k in b
    requires Total(UnionSum(a[k := Get(a, k) + b[k]], b - {k})) == Total(a[k := Get(a, k) + b[k]]) + Total(b - {k})
    ensures Total(UnionSum(a, b)) == Total(a) + Total(b)
  {
    UnionSumShift(a, b, k);
    TotalShift(a, b, k);
  }
}
