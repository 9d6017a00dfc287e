/**
 * Shared vocabulary of the histogram models: the sorted `(value, count)` input, sums of counts,
 * and the `std::lower_bound`/`std::upper_bound` searches over bin maxima.
 */
module HistogramCommon {

  /** An entry of `value_counts`: a distinct value and how often it occurs. */
  type ValueCount = (int, nat)

  /** `value_counts` as `_calculate_value_counts` delivers it: sorted by value, each value once. */
  predicate StrictlySorted(vc: seq<ValueCount>)
  {
    forall i, j :: 0 <= i < j < |vc| ==> vc[i].0 < vc[j].0
  }

  /** Every value occurs at least once (the counts come from counting occurrences). */
  predicate PositiveCounts(vc: seq<ValueCount>)
  {
    forall i :: 0 <= i < |vc| ==> vc[i].1 > 0
  }

  predicate Increasing(s: seq<int>)
  {
    forall i, j :: 0 <= i < j < |s| ==> s[i] < s[j]
  }

  /** `std::accumulate` over a vector of counts. */
  function Sum(s: seq<nat>): nat
  {
    if |s| == 0 then 0 else Sum(s[..|s| - 1]) + s[|s| - 1]
  }

  /** `std::accumulate` over the second components of `(value, count)` pairs. */
  function Total(vc: seq<ValueCount>): nat
  {
    if |vc| == 0 then 0 else Total(vc[..|vc| - 1]) + vc[|vc| - 1].1
  }

  lemma {:induction false} SumAppend(s: seq<nat>, t: seq<nat>)
    ensures Sum(s + t) == Sum(s) + Sum(t)
    decreases |t|
  {
    if |t| == 0 {
      assert s + t == s;
    } else {
      assert (s + t)[..|s + t| - 1] == s + t[..|t| - 1];
      SumAppend(s, t[..|t| - 1]);
    }
  }

  lemma {:induction false} TotalAppend(a: seq<ValueCount>, b: seq<ValueCount>)
    ensures Total(a + b) == Total(a) + Total(b)
    decreases |b|
  {
    if |b| == 0 {
      assert a + b == a;
    } else {
      assert (a + b)[..|a + b| - 1] == a + b[..|b| - 1];
      TotalAppend(a, b[..|b| - 1]);
    }
  }

  /** Splitting a range of `value_counts` at an inner index splits its total. */
  lemma TotalSplit(vc: seq<ValueCount>, i: nat, j: nat, k: nat)
    requires i <= j <= k <= |vc|
    ensures Total(vc[i..k]) == Total(vc[i..j]) + Total(vc[j..k])
  {
    assert vc[i..k] == vc[i..j] + vc[j..k];
    TotalAppend(vc[i..j], vc[j..k]);
  }

  /** A nonempty range of positive counts has a positive total. */
  lemma {:induction false} TotalPositive(vc: seq<ValueCount>)
    requires PositiveCounts(vc) && |vc| > 0
    ensures Total(vc) > 0
  {
  }

  /** The counts of a range are the counts of its entries. */
  lemma TotalExtend(vc: seq<ValueCount>, i: nat, j: nat)
    requires i <= j < |vc|
    ensures Total(vc[i..j + 1]) == Total(vc[i..j]) + vc[j].1
  {
    assert vc[i..j + 1][..j - i] == vc[i..j];
  }

  /** A count never exceeds the sum it is part of. */
  lemma {:induction false} SumAtLeastElement(s: seq<nat>, i: nat)
    requires i < |s|
    ensures s[i] <= Sum(s)
    decreases |s|
  {
    if i < |s| - 1 {
      SumAtLeastElement(s[..|s| - 1], i);
    }
  }

  /** A range of `value_counts` holds at least the occurrences of each of its entries. */
  lemma TotalAtLeastEntry(vc: seq<ValueCount>, b: nat, j: nat, e: nat)
    requires b <= j < e <= |vc|
    ensures vc[j].1 <= Total(vc[b..e])
  {
    TotalSplit(vc, b, j, e);
    TotalSplit(vc, j, j + 1, e);
    TotalExtend(vc, j, j);
  }

  /** `std::lower_bound`: the first position whose element is not less than `v` (|s| if none). */
  function LowerBound(s: seq<int>, v: int): (r: nat)
    ensures r <= |s|
    ensures forall k :: 0 <= k < r ==> s[k] < v
    ensures r < |s| ==> s[r] >= v
  {
    if |s| == 0 then 0 else if s[0] >= v then 0 else 1 + LowerBound(s[1..], v)
  }

  /** `std::upper_bound`: the first position whose element is greater than `v` (|s| if none). */
  function UpperBound(s: seq<int>, v: int): (r: nat)
    ensures r <= |s|
    ensures forall k :: 0 <= k < r ==> s[k] <= v
    ensures r < |s| ==> s[r] > v
  {
    if |s| == 0 then 0 else if s[0] > v then 0 else 1 + UpperBound(s[1..], v)
  }

  /** On a sorted sequence the lower bound is the partition point: everything from there on is >= v. */
  lemma LowerBoundPartition(s: seq<int>, v: int)
    requires Increasing(s)
    ensures forall k :: LowerBound(s, v) <= k < |s| ==> s[k] >= v
  {
  }

  lemma UpperBoundPartition(s: seq<int>, v: int)
    requires Increasing(s)
    ensures forall k :: UpperBound(s, v) <= k < |s| ==> s[k] > v
  {
  }

  /** The rows of the distinct-value column paired with the rows of the count column. */
  function Zip(values: seq<int>, occurrences: seq<nat>): (vc: seq<ValueCount>)
    requires |values| == |occurrences|
    ensures |vc| == |values| && forall i :: 0 <= i < |vc| ==> vc[i] == (values[i], occurrences[i])
  {
    seq(|values|, i requires 0 <= i < |values| => (values[i], occurrences[i]))
  }

  lemma {:induction false} ZipTotal(values: seq<int>, occurrences: seq<nat>, b: nat, e: nat)
    requires |values| == |occurrences| && b <= e <= |values|
    ensures Total(Zip(values, occurrences)[b..e]) == Sum(occurrences[b..e])
    decreases e - b
  {
    if b < e {
      ZipTotal(values, occurrences, b, e - 1);
      var vc := Zip(values, occurrences);
      assert vc[b..e][..e - 1 - b] == vc[b..e - 1];
      assert occurrences[b..e][..e - 1 - b] == occurrences[b..e - 1];
    }
  }

  /** Where a forward scan over `value_counts` stops that advances while the value is below v. */
  function ValuesBelow(vc: seq<ValueCount>, v: int): (r: nat)
    ensures r <= |vc|
    ensures forall k :: 0 <= k < r ==> vc[k].0 < v
    ensures r < |vc| ==> vc[r].0 >= v
  {
    if |vc| == 0 || vc[0].0 >= v then 0 else 1 + ValuesBelow(vc[1..], v)
  }

  /** The stopping point is unique: any index with the same two properties is it. */
  lemma ValuesBelowIs(vc: seq<ValueCount>, v: int, j: nat)
    requires j <= |vc| && (forall k :: 0 <= k < j ==> vc[k].0 < v) && (j < |vc| ==> vc[j].0 >= v)
    ensures ValuesBelow(vc, v) == j
  {
  }

  /** A larger bound never stops the scan earlier. */
  lemma ValuesBelowMonotone(vc: seq<ValueCount>, v: int, w: int)
    requires v <= w
    ensures ValuesBelow(vc, v) <= ValuesBelow(vc, w)
  {
  }

  /** On sorted input the scan stops exactly after the values below v. */
  lemma ValuesBelowSorted(vc: seq<ValueCount>, v: int, j: nat)
    requires StrictlySorted(vc) && j < |vc|
    ensures j < ValuesBelow(vc, v) <==> vc[j].0 < v
  {
  }
}
