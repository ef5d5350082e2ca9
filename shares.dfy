/**
 * From counts to a categorical distribution: each category's percentage of
 * the total, rounded to one decimal (`toFixed(1)`), and the largest of them
 * (`Math.max(...Object.values(distribution).map(Number))`).
 */
module Shares {
  import opened Wrappers
  import opened JsNumber
  import opened Counting

  /** The distribution for `keys`, in that order: each key with its rounded
      percentage of `total`. */
  function SharesOf(counts: map<string, nat>, keys: seq<string>, total: nat): (dist: seq<Share>)
    requires forall k :: k in keys ==> k in counts
    requires keys != [] ==> total > 0
    ensures |dist| == |keys|
  {
    if keys == [] then []
    else SharesOf(counts, keys[..|keys| - 1], total) + [Share(keys[|keys| - 1], PercentTenths(counts[keys[|keys| - 1]], total))]
  }

  /** The categories of a distribution. */
  function Categories(dist: seq<Share>): (r: seq<string>)
    ensures |r| == |dist| && forall i :: 0 <= i < |dist| ==> r[i] == dist[i].category
  {
    seq(|dist|, i requires 0 <= i < |dist| => dist[i].category)
  }

  /** Entry `i` of the distribution is key `i` with its rounded percentage. */
  lemma {:induction false} SharesAt(counts: map<string, nat>, keys: seq<string>, total: nat, i: nat)
    requires forall k :: k in keys ==> k in counts
    requires keys != [] ==> total > 0
    requires i < |keys|
    ensures SharesOf(counts, keys, total)[i] == Share(keys[i], PercentTenths(counts[keys[i]], total))
  {
    if i < |keys| - 1 {
      SharesAt(counts, keys[..|keys| - 1], total, i);
    }
  }

  /** The distribution is filled key by key, in `Object.keys` order of the counts. */
  method Percentages(counts: map<string, nat>, keys: seq<string>, total: nat) returns (dist: seq<Share>)
    requires forall k :: k in keys ==> k in counts
    requires keys != [] ==> total > 0
    ensures dist == SharesOf(counts, keys, total)
  {
    dist := [];
    for i := 0 to |keys|
      invariant dist == SharesOf(counts, keys[..i], total)
    {
      assert keys[..i + 1][..i] == keys[..i];
      dist := dist + [Share(keys[i], PercentTenths(counts[keys[i]], total))];
    }
    assert keys[..|keys|] == keys;
  }

  /** `Math.max` of the percentages; `None` for an empty distribution, where
      JavaScript's `Math.max()` is `-Infinity`. */
  function MaxTenths(dist: seq<Share>): (r: Option<nat>)
    ensures r.None? <==> dist == []
    ensures r.Some? ==> exists i :: 0 <= i < |dist| && dist[i].tenths == r.value
    ensures r.Some? ==> forall i :: 0 <= i < |dist| ==> dist[i].tenths <= r.value
  {
    if dist == [] then None
    else
      match MaxTenths(dist[1..])
      case None => Some(dist[0].tenths)
      case Some(m) =>
        assert forall i :: 1 <= i < |dist| ==> dist[i] == dist[1..][i - 1];
        Some(if dist[0].tenths >= m then dist[0].tenths else m)
  }

  /** The sum of the rounded percentages, in tenths. */
  function SumTenths(dist: seq<Share>): nat
  {
    if dist == [] then 0 else SumTenths(dist[..|dist| - 1]) + dist[|dist| - 1].tenths
  }

  lemma DriftStep(t: nat, s: nat, r: nat, sum: nat, c: nat, n: nat)
    requires 2 * t * s <= 2000 * sum + n * t && 2000 * sum <= 2 * t * s + n * t
    requires 2 * t * r <= 2000 * c + t < 2 * t * r + 2 * t
    ensures 2 * t * (s + r) <= 2000 * (sum + c) + (n + 1) * t
    ensures 2000 * (sum + c) <= 2 * t * (s + r) + (n + 1) * t
  {
    assert 2 * t * (s + r) == 2 * t * s + 2 * t * r;
    assert (n + 1) * t == n * t + t;
  }

  lemma {:induction false} RoundingDrift(counts: map<string, nat>, keys: seq<string>, total: nat)
    requires forall k :: k in keys ==> k in counts
    requires total > 0
    ensures 2 * total * SumTenths(SharesOf(counts, keys, total)) <= 2000 * SumCounts(counts, keys) + |keys| * total
    ensures 2000 * SumCounts(counts, keys) <= 2 * total * SumTenths(SharesOf(counts, keys, total)) + |keys| * total
  {
    if keys != [] {
      var init := keys[..|keys| - 1];
      var k := keys[|keys| - 1];
      RoundingDrift(counts, init, total);
      DriftSplit(counts, keys, total);
      DriftStep(total, SumTenths(SharesOf(counts, init, total)), PercentTenths(counts[k], total),
                SumCounts(counts, init), counts[k], |init|);
    }
  }

  /** The last key adds its own rounded share and its own count. */
  lemma DriftSplit(counts: map<string, nat>, keys: seq<string>, total: nat)
    requires forall k :: k in keys ==> k in counts
    requires total > 0 && keys != []
    ensures var init := keys[..|keys| - 1]; var k := keys[|keys| - 1];
            && SumTenths(SharesOf(counts, keys, total)) == SumTenths(SharesOf(counts, init, total)) + PercentTenths(counts[k], total)
            && SumCounts(counts, keys) == SumCounts(counts, init) + counts[k]
  {
    var d := SharesOf(counts, keys, total);
    assert d[..|d| - 1] == SharesOf(counts, keys[..|keys| - 1], total);
  }

  lemma {:induction false} ProductSign(t: nat, d: int)
    requires t > 0
    ensures d > 0 ==> t * d >= d
  {
    if t > 1 {
      ProductSign(t - 1, d);
      assert t * d == (t - 1) * d + d;
    }
  }

  lemma CancelFactor(t: nat, a: int, b: int)
    requires t > 0 && t * a <= t * b
    ensures a <= b
  {
    ProductSign(t, a - b);
    assert t * (a - b) == t * a - t * b;
  }

  /** The rounded percentages of a distribution add up to 100% to within half a
      tenth per category: twice their sum, in tenths, is within the number of
      categories of 2000. */
  lemma SharesNearHundred(counts: map<string, nat>, keys: seq<string>, total: nat)
    requires forall k :: k in keys ==> k in counts
    requires total > 0 && SumCounts(counts, keys) == total
    ensures 2 * SumTenths(SharesOf(counts, keys, total)) <= 2000 + |keys|
    ensures 2000 <= 2 * SumTenths(SharesOf(counts, keys, total)) + |keys|
  {
    RoundingDrift(counts, keys, total);
    DriftBound(total, SumTenths(SharesOf(counts, keys, total)), |keys|);
  }

  lemma DriftBound(t: nat, s: nat, n: nat)
    requires t > 0
    requires 2 * t * s <= 2000 * t + n * t && 2000 * t <= 2 * t * s + n * t
    ensures 2 * s <= 2000 + n && 2000 <= 2 * s + n
  {
    assert 2 * t * s == t * (2 * s);
    assert 2000 * t + n * t == t * (2000 + n);
    CancelFactor(t, 2 * s, 2000 + n);
    CancelFactor(t, 2000, 2 * s + n);
  }

  lemma {:induction false} CountAtMostSum(counts: map<string, nat>, keys: seq<string>, k: string)
    requires forall k :: k in keys ==> k in counts
    requires k in keys
    ensures counts[k] <= SumCounts(counts, keys)
  {
    if keys[|keys| - 1] != k {
      assert keys == keys[..|keys| - 1] + [keys[|keys| - 1]];
      CountAtMostSum(counts, keys[..|keys| - 1], k);
    }
  }

  /** No category exceeds 100% when the counts sum to the total. */
  lemma SharesAtMostHundred(counts: map<string, nat>, keys: seq<string>, total: nat)
    requires forall k :: k in keys ==> k in counts
    requires total > 0 && SumCounts(counts, keys) == total
    ensures forall i :: 0 <= i < |keys| ==> SharesOf(counts, keys, total)[i].tenths <= 1000
  {
    forall i | 0 <= i < |keys|
      ensures SharesOf(counts, keys, total)[i].tenths <= 1000
    {
      SharesAt(counts, keys, total, i);
      CountAtMostSum(counts, keys, keys[i]);
    }
  }

  lemma {:induction false} SumConstant(dist: seq<Share>, v: nat)
    requires forall i :: 0 <= i < |dist| ==> dist[i].tenths == v
    ensures SumTenths(dist) == |dist| * v
  {
    if dist != [] {
      SumConstant(dist[..|dist| - 1], v);
    }
  }

  /** Six equally frequent categories are 16.7% each, which adds up to 100.2%:
      the sum of the rounded percentages can be off by more than 0.1. */
  lemma SixWaySplit()
    ensures var counts := map["a" := 1, "b" := 1, "c" := 1, "d" := 1, "e" := 1, "f" := 1];
            SumTenths(SharesOf(counts, ["a", "b", "c", "d", "e", "f"], 6)) == 1002
  {
    assert PercentTenths(1, 6) == 167;
    var counts := map["a" := 1, "b" := 1, "c" := 1, "d" := 1, "e" := 1, "f" := 1];
    var keys := ["a", "b", "c", "d", "e", "f"];
    forall i | 0 <= i < 6
      ensures SharesOf(counts, keys, 6)[i].tenths == 167
    {
      SharesAt(counts, keys, 6, i);
    }
    SumConstant(SharesOf(counts, keys, 6), 167);
  }

  lemma {:induction false} NoDuplicatesMultiset(s: seq<string>)
    ensures NoDuplicates(s) <==> forall x :: multiset(s)[x] <= 1
  {
    if s != [] {
      var init := s[..|s| - 1];
      var y := s[|s| - 1];
      NoDuplicatesMultiset(init);
      assert s == init + [y];
      assert forall x :: multiset(s)[x] == multiset(init)[x] + (if x == y then 1 else 0);
      assert y in init <==> multiset(init)[y] >= 1;
      if NoDuplicates(s) {
        assert NoDuplicates(init);
        assert y !in init;
      } else {
        var i, j :| 0 <= i < j < |s| && s[i] == s[j];
        if j == |s| - 1 {
          assert y in init;
          assert multiset(s)[y] >= 2;
        } else {
          assert !NoDuplicates(init) by {
            assert init[i] == init[j];
          }
        }
      }
    }
  }

  /** The distribution of a list of counted values: every distinct value with
      its rounded percentage of the total, in `Object.keys` order. */
  function DistributionOf(vs: seq<string>): seq<Share>
  {
    var counts := Tally(vs);
    var keys := JsObject.OwnKeyOrder(Distinct(vs));
    TotalIsCountedCells(vs);
    KeysOfValues(vs);
    SharesOf(counts, keys, SumCounts(counts, keys))
  }

  lemma KeysOfValues(vs: seq<string>)
    ensures forall v :: v in JsObject.OwnKeyOrder(Distinct(vs)) <==> v in vs
    ensures NoDuplicates(JsObject.OwnKeyOrder(Distinct(vs)))
  {
    var d := Distinct(vs);
    var keys := JsObject.OwnKeyOrder(d);
    JsObject.OwnKeyOrderShape(d);
    DistinctKeys(vs);
    SameElements(d, keys);
    NoDuplicatesMultiset(d);
    NoDuplicatesMultiset(keys);
  }

  /** Entry `i` of the distribution of `vs` is key `i` of `Object.keys` order
      with its rounded share of all counted cells. */
  lemma DistributionAt(vs: seq<string>)
    ensures var d := DistributionOf(vs);
            && Categories(d) == JsObject.OwnKeyOrder(Distinct(vs))
            && (forall i :: 0 <= i < |d| ==> d[i].tenths == PercentTenths(Occurrences(vs, d[i].category), |vs|))
  {
    var counts := Tally(vs);
    var keys := JsObject.OwnKeyOrder(Distinct(vs));
    TotalIsCountedCells(vs);
    KeysOfValues(vs);
    TallyCounts(vs);
    var d := DistributionOf(vs);
    assert d == SharesOf(counts, keys, |vs|);
    forall i | 0 <= i < |keys|
      ensures d[i] == Share(keys[i], PercentTenths(counts[keys[i]], |vs|))
    {
      SharesAt(counts, keys, |vs|, i);
    }
  }

  /** A categorical distribution lists every distinct counted value exactly
      once, in `Object.keys` order, and nothing else; it is empty exactly when
      no cell was counted; each entry is the rounded percentage of that value's
      number of occurrences among all counted cells; and the percentages add up
      to 100% within half a tenth per category. */
  lemma DistributionFacts(vs: seq<string>)
    ensures var d := DistributionOf(vs);
            && Categories(d) == JsObject.OwnKeyOrder(Distinct(vs))
            && (forall v :: v in Categories(d) <==> v in vs)
            && NoDuplicates(Categories(d))
            && (d == [] <==> vs == [])
            && (forall i :: 0 <= i < |d| ==> d[i].tenths == PercentTenths(Occurrences(vs, d[i].category), |vs|) <= 1000)
            && (vs != [] ==> 2 * SumTenths(d) <= 2000 + |d| && 2000 <= 2 * SumTenths(d) + |d|)
  {
    var counts := Tally(vs);
    var keys := JsObject.OwnKeyOrder(Distinct(vs));
    var d := DistributionOf(vs);
    DistributionAt(vs);
    KeysOfValues(vs);
    TallyCounts(vs);
    if vs != [] {
      TotalIsCountedCells(vs);
      assert d == SharesOf(counts, keys, |vs|);
      SharesNearHundred(counts, keys, |vs|);
      SharesAtMostHundred(counts, keys, |vs|);
    }
  }
}
