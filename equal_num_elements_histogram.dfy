/**
 * Equal-num-elements histogram: the sorted distinct values are split into `num_bins` consecutive runs
 * of (almost) the same number of distinct values; the first `num_bins_with_extra_value` runs hold one
 * more value than the others.
 */
module EqualNumElementsHistogram {
  import opened Wrappers
  import opened HistogramCommon
  import opened Arithmetic

  /** The bin statistics `_get_bin_stats` returns and the histogram constructor stores. */
  datatype Histogram = Histogram(
    mins: seq<int>,
    maxs: seq<int>,
    counts: seq<nat>,
    distinctCountPerBin: nat,
    numBinsWithExtraValue: nat)

  /** Fewer distinct values than requested bins: one bin per distinct value. */
  function NumBinsFor(distinctCount: nat, maxNumBins: nat): nat
  {
    if distinctCount < maxNumBins then distinctCount else maxNumBins
  }

  /**
   * Index into `value_counts` where bin `i` starts, as the loop advances `begin_index`: each bin holds
   * `distinct_count_per_bin` values, one more while `bin_index < num_bins_with_extra_value`.
   */
  function BinBegin(i: nat, perBin: nat, extra: nat): nat
  {
    if i == 0 then 0 else BinBegin(i - 1, perBin, extra) + perBin + (if i - 1 < extra then 1 else 0)
  }

  /** The number of distinct values of bin `i` (`_bin_count_distinct`). */
  function BinCountDistinctOf(i: nat, perBin: nat, extra: nat): nat
  {
    perBin + (if i < extra then 1 else 0)
  }

  /** The begin index in closed form: i * per_bin plus the extra values of the earlier bins. */
  lemma {:induction false} BinBeginClosedForm(i: nat, perBin: nat, extra: nat)
    ensures BinBegin(i, perBin, extra) == i * perBin + Min(i, extra)
  {
    if i > 0 {
      BinBeginClosedForm(i - 1, perBin, extra);
      MulSucc(i - 1, perBin);
    }
  }

  lemma {:induction false} BinBeginMonotone(i: nat, j: nat, perBin: nat, extra: nat)
    requires i <= j
    ensures BinBegin(i, perBin, extra) + (j - i) * perBin <= BinBegin(j, perBin, extra)
    decreases j
  {
    if i < j {
      BinBeginMonotone(i, j - 1, perBin, extra);
      MulSucc(j - 1 - i, perBin);
    }
  }

  /** Bin `i` is the run vc[BinBegin(i)..BinBegin(i+1)]: its min, its max and its summed counts. */
  predicate BinIs(vc: seq<ValueCount>, perBin: nat, extra: nat, i: nat, binMin: int, binMax: int, binCount: nat)
  {
    var b := BinBegin(i, perBin, extra);
    var e := BinBegin(i + 1, perBin, extra);
    b < e <= |vc| && binMin == vc[b].0 && binMax == vc[e - 1].0 && binCount == Total(vc[b..e])
  }

  /** Bin stats derived from `value_counts`: the shape the loop of `_get_bin_stats` produces. */
  predicate IsBinStatsOf(vc: seq<ValueCount>, maxNumBins: nat, h: Histogram)
    requires |vc| > 0 && maxNumBins > 0
  {
    var numBins := NumBinsFor(|vc|, maxNumBins);
    BinBeginsInRange(|vc|, numBins) &&
    h.distinctCountPerBin == |vc| / numBins &&
    h.numBinsWithExtraValue == |vc| % numBins &&
    |h.mins| == numBins && |h.maxs| == numBins && |h.counts| == numBins &&
    forall i :: 0 <= i < numBins ==>
      BinIs(vc, h.distinctCountPerBin, h.numBinsWithExtraValue, i, h.mins[i], h.maxs[i], h.counts[i])
  }

  /** The last bin ends exactly at the end of `value_counts`, and every bin is a nonempty run. */
  predicate BinBeginsInRange(distinctCount: nat, numBins: nat)
    requires numBins > 0
  {
    var perBin := distinctCount / numBins;
    var extra := distinctCount % numBins;
    BinBegin(numBins, perBin, extra) == distinctCount && perBin >= 1
  }

  lemma BinsCoverValues(distinctCount: nat, maxNumBins: nat)
    requires distinctCount > 0 && maxNumBins > 0
    ensures NumBinsFor(distinctCount, maxNumBins) > 0
    ensures BinBeginsInRange(distinctCount, NumBinsFor(distinctCount, maxNumBins))
  {
    var numBins := NumBinsFor(distinctCount, maxNumBins);
    var perBin := distinctCount / numBins;
    var extra := distinctCount % numBins;
    DivModIdentity(distinctCount, numBins);
    BinBeginClosedForm(numBins, perBin, extra);
    assert extra < numBins;
  }

  /** Each bin is a nonempty run that ends inside `value_counts`. */
  lemma BinRunInRange(i: nat, numBins: nat, distinctCount: nat)
    requires numBins > 0 && i < numBins && BinBeginsInRange(distinctCount, numBins)
    ensures BinBegin(i, distinctCount / numBins, distinctCount % numBins)
          < BinBegin(i + 1, distinctCount / numBins, distinctCount % numBins) <= distinctCount
  {
    BinBeginMonotone(i + 1, numBins, distinctCount / numBins, distinctCount % numBins);
    MulNonNegative(numBins - (i + 1), distinctCount / numBins);
  }

  /** One round of the loop: bin `binIndex` ends one before the next bin's begin index. */
  lemma NextBinIs(vc: seq<ValueCount>, numBins: nat, binIndex: nat, beginIndex: nat, endIndex: int)
    requires numBins > 0 && binIndex < numBins && BinBeginsInRange(|vc|, numBins)
    requires beginIndex == BinBegin(binIndex, |vc| / numBins, |vc| % numBins)
    requires endIndex == beginIndex + |vc| / numBins - 1 + (if binIndex < |vc| % numBins then 1 else 0)
    ensures beginIndex <= endIndex < |vc| && endIndex + 1 == BinBegin(binIndex + 1, |vc| / numBins, |vc| % numBins)
    ensures BinIs(vc, |vc| / numBins, |vc| % numBins, binIndex, vc[beginIndex].0, vc[endIndex].0,
                  Total(vc[beginIndex..endIndex + 1]))
  {
    BinRunInRange(binIndex, numBins, |vc|);
  }

  /** The same round over the two columns: the bin's min, max and count read from them. */
  lemma NextColumnBinIs(distinctValues: seq<int>, occurrences: seq<nat>, numBins: nat, binIndex: nat,
                        beginIndex: nat, endIndex: int)
    requires |distinctValues| == |occurrences|
    requires numBins > 0 && binIndex < numBins && BinBeginsInRange(|distinctValues|, numBins)
    requires beginIndex == BinBegin(binIndex, |distinctValues| / numBins, |distinctValues| % numBins)
    requires endIndex == beginIndex + |distinctValues| / numBins - 1
                         + (if binIndex < |distinctValues| % numBins then 1 else 0)
    ensures beginIndex <= endIndex < |distinctValues|
    ensures endIndex + 1 == BinBegin(binIndex + 1, |distinctValues| / numBins, |distinctValues| % numBins)
    ensures BinIs(Zip(distinctValues, occurrences), |distinctValues| / numBins, |distinctValues| % numBins,
                  binIndex, distinctValues[beginIndex], distinctValues[endIndex],
                  Sum(occurrences[beginIndex..endIndex + 1]))
  {
    var vc := Zip(distinctValues, occurrences);
    NextBinIs(vc, numBins, binIndex, beginIndex, endIndex);
    ZipTotal(distinctValues, occurrences, beginIndex, endIndex + 1);
  }

  /**
   * `_get_bin_stats(value_counts, max_num_bins)`.  Both divisions by `num_bins` divide by zero for an
   * empty input or `max_num_bins == 0`, which the precondition excludes: the generic `from_column`
   * returns early for an empty input, the string `from_column` does not, and no caller checks
   * `max_num_bins`.
   */
  method GetBinStats(vc: seq<ValueCount>, maxNumBins: nat) returns (h: Histogram)
    requires |vc| > 0 && maxNumBins > 0
    ensures IsBinStatsOf(vc, maxNumBins, h)
  {
    var distinctCount := |vc|;
    var numBins := if distinctCount < maxNumBins then distinctCount else maxNumBins;
    var perBin := distinctCount / numBins;
    var extra := distinctCount % numBins;
    BinsCoverValues(distinctCount, maxNumBins);
    var mins: seq<int> := [];
    var maxs: seq<int> := [];
    var counts: seq<nat> := [];
    var beginIndex := 0;
    var binIndex := 0;
    while binIndex < numBins
      invariant 0 <= binIndex <= numBins
      invariant beginIndex == BinBegin(binIndex, perBin, extra)
      invariant |mins| == binIndex && |maxs| == binIndex && |counts| == binIndex
      invariant forall i :: 0 <= i < binIndex ==> BinIs(vc, perBin, extra, i, mins[i], maxs[i], counts[i])
    {
      var endIndex := beginIndex + perBin - 1;
      if binIndex < extra {
        endIndex := endIndex + 1;
      }
      NextBinIs(vc, numBins, binIndex, beginIndex, endIndex);
      mins := mins + [vc[beginIndex].0];
      maxs := maxs + [vc[endIndex].0];
      counts := counts + [Total(vc[beginIndex..endIndex + 1])];
      beginIndex := endIndex + 1;
      binIndex := binIndex + 1;
    }
    h := Histogram(mins, maxs, counts, perBin, extra);
  }

  /**
   * `_generate(distinct_column, count_column, max_num_bins)`: the same loop over two parallel columns,
   * appending to the (initially empty) member vectors.
   */
  method Generate(distinctValues: seq<int>, occurrences: seq<nat>, maxNumBins: nat) returns (h: Histogram)
    requires |distinctValues| == |occurrences| && |distinctValues| > 0 && maxNumBins > 0
    ensures IsBinStatsOf(Zip(distinctValues, occurrences), maxNumBins, h)
  {
    var vc := Zip(distinctValues, occurrences);
    var distinctCount := |distinctValues|;
    var numBins := if distinctCount < maxNumBins then distinctCount else maxNumBins;
    var perBin := distinctCount / numBins;
    var extra := distinctCount % numBins;
    BinsCoverValues(distinctCount, maxNumBins);
    var mins: seq<int> := [];
    var maxs: seq<int> := [];
    var counts: seq<nat> := [];
    var beginIndex := 0;
    var binIndex := 0;
    while binIndex < numBins
      invariant 0 <= binIndex <= numBins
      invariant beginIndex == BinBegin(binIndex, perBin, extra)
      invariant |mins| == binIndex && |maxs| == binIndex && |counts| == binIndex
      invariant forall i :: 0 <= i < binIndex ==> BinIs(vc, perBin, extra, i, mins[i], maxs[i], counts[i])
    {
      var endIndex := beginIndex + perBin - 1;
      if binIndex < extra {
        endIndex := endIndex + 1;
      }
      NextColumnBinIs(distinctValues, occurrences, numBins, binIndex, beginIndex, endIndex);
      mins := mins + [distinctValues[beginIndex]];
      maxs := maxs + [distinctValues[endIndex]];
      counts := counts + [Sum(occurrences[beginIndex..endIndex + 1])];
      beginIndex := endIndex + 1;
      binIndex := binIndex + 1;
    }
    h := Histogram(mins, maxs, counts, perBin, extra);
  }

  /** The bin stats of a given input are unique, so `_get_bin_stats` and `_generate` build the same bins. */
  lemma BinStatsUnique(vc: seq<ValueCount>, maxNumBins: nat, h1: Histogram, h2: Histogram)
    requires |vc| > 0 && maxNumBins > 0
    requires IsBinStatsOf(vc, maxNumBins, h1) && IsBinStatsOf(vc, maxNumBins, h2)
    ensures h1 == h2
  {
    assert h1.mins == h2.mins;
    assert h1.maxs == h2.maxs;
    assert h1.counts == h2.counts;
  }

  // -------------------------------------------------------------------------------------------------
  // Properties of the bins

  /** Number of bins = min(distinct values, max_num_bins); per-bin counts add up to the distinct values. */
  lemma BinCountsOfStats(vc: seq<ValueCount>, maxNumBins: nat, h: Histogram)
    requires |vc| > 0 && maxNumBins > 0 && IsBinStatsOf(vc, maxNumBins, h)
    ensures |h.counts| == (if |vc| < maxNumBins then |vc| else maxNumBins)
    ensures h.distinctCountPerBin * |h.counts| + h.numBinsWithExtraValue == |vc|
    ensures TotalCountDistinct(h) == |vc|
  {
    DivModIdentity(|vc|, |h.counts|);
  }

  /** The recorded bin i of the stats. */
  lemma StatsBin(vc: seq<ValueCount>, maxNumBins: nat, h: Histogram, i: nat)
    requires |vc| > 0 && maxNumBins > 0 && IsBinStatsOf(vc, maxNumBins, h) && i < |h.counts|
    ensures BinIs(vc, h.distinctCountPerBin, h.numBinsWithExtraValue, i, h.mins[i], h.maxs[i], h.counts[i])
  {
  }

  /** The distinct counts of bins 0..k-1, in bin order. */
  function DistinctCountsOf(k: nat, perBin: nat, extra: nat): (s: seq<nat>)
    ensures |s| == k
  {
    if k == 0 then [] else DistinctCountsOf(k - 1, perBin, extra) + [BinCountDistinctOf(k - 1, perBin, extra)]
  }

  /** The distinct counts of bins 0..k-1 add up to the begin index of bin k. */
  lemma {:induction false} DistinctCountsPrefix(k: nat, perBin: nat, extra: nat)
    ensures Sum(DistinctCountsOf(k, perBin, extra)) == BinBegin(k, perBin, extra)
  {
    if k > 0 {
      var s := DistinctCountsOf(k, perBin, extra);
      assert s[..k - 1] == DistinctCountsOf(k - 1, perBin, extra);
      DistinctCountsPrefix(k - 1, perBin, extra);
    }
  }

  lemma {:induction false} DistinctCountsAt(k: nat, perBin: nat, extra: nat, i: nat)
    requires i < k
    ensures DistinctCountsOf(k, perBin, extra)[i] == BinCountDistinctOf(i, perBin, extra)
  {
    if i < k - 1 {
      DistinctCountsAt(k - 1, perBin, extra, i);
    }
  }

  /**
   * `_bin_count_distinct(i)` is the size of run i, and the distinct counts of all bins sum to the
   * number of distinct values.
   */
  lemma BinCountDistinctIsRunLength(vc: seq<ValueCount>, maxNumBins: nat, h: Histogram)
    requires |vc| > 0 && maxNumBins > 0 && IsBinStatsOf(vc, maxNumBins, h)
    ensures forall i :: 0 <= i < |h.counts| ==>
      BinCountDistinct(h, i)
        == BinBegin(i + 1, h.distinctCountPerBin, h.numBinsWithExtraValue)
         - BinBegin(i, h.distinctCountPerBin, h.numBinsWithExtraValue)
    ensures forall i :: 0 <= i < |h.counts| ==>
      DistinctCountsOf(|h.counts|, h.distinctCountPerBin, h.numBinsWithExtraValue)[i] == BinCountDistinct(h, i)
    ensures Sum(DistinctCountsOf(|h.counts|, h.distinctCountPerBin, h.numBinsWithExtraValue)) == |vc|
  {
    DistinctCountsPrefix(|h.counts|, h.distinctCountPerBin, h.numBinsWithExtraValue);
    forall i | 0 <= i < |h.counts|
      ensures DistinctCountsOf(|h.counts|, h.distinctCountPerBin, h.numBinsWithExtraValue)[i] == BinCountDistinct(h, i)
    {
      DistinctCountsAt(|h.counts|, h.distinctCountPerBin, h.numBinsWithExtraValue, i);
    }
  }

  /** The counts of bins 0..k-1 cover exactly the first BinBegin(k) entries of `value_counts`. */
  lemma {:induction false} CountsPrefix(vc: seq<ValueCount>, maxNumBins: nat, h: Histogram, k: nat)
    requires |vc| > 0 && maxNumBins > 0 && IsBinStatsOf(vc, maxNumBins, h)
    requires k <= |h.counts|
    ensures BinBegin(k, h.distinctCountPerBin, h.numBinsWithExtraValue) <= |vc|
    ensures Sum(h.counts[..k]) == Total(vc[..BinBegin(k, h.distinctCountPerBin, h.numBinsWithExtraValue)])
  {
    if k > 0 {
      CountsPrefix(vc, maxNumBins, h, k - 1);
      StatsBin(vc, maxNumBins, h, k - 1);
      var b := BinBegin(k - 1, h.distinctCountPerBin, h.numBinsWithExtraValue);
      var e := BinBegin(k, h.distinctCountPerBin, h.numBinsWithExtraValue);
      assert h.counts[k - 1] == Total(vc[b..e]);
      CountsPrefixStep(vc, h.counts, k, b, e);
    } else {
      assert vc[..0] == [];
    }
  }

  /** Adding bin k-1, which covers vc[b..e], to the counts of the bins before it. */
  lemma CountsPrefixStep(vc: seq<ValueCount>, counts: seq<nat>, k: nat, b: nat, e: nat)
    requires 0 < k <= |counts| && b <= e <= |vc|
    requires Sum(counts[..k - 1]) == Total(vc[..b]) && counts[k - 1] == Total(vc[b..e])
    ensures Sum(counts[..k]) == Total(vc[..e])
  {
    assert counts[..k][..k - 1] == counts[..k - 1];
    TotalSplit(vc, 0, b, e);
    assert vc[..e] == vc[0..e] && vc[..b] == vc[0..b];
  }

  /** `total_count` equals the sum of all occurrence counts of `value_counts`. */
  lemma TotalCountOfStats(vc: seq<ValueCount>, maxNumBins: nat, h: Histogram)
    requires |vc| > 0 && maxNumBins > 0 && IsBinStatsOf(vc, maxNumBins, h)
    ensures TotalCount(h) == Total(vc)
  {
    CountsPrefix(vc, maxNumBins, h, |h.counts|);
    assert BinBegin(|h.counts|, h.distinctCountPerBin, h.numBinsWithExtraValue) == |vc|;
    assert h.counts[..|h.counts|] == h.counts;
    assert vc[..|vc|] == vc;
  }

  /** Bins of sorted input are ordered, non-overlapping ranges: min <= max, and a bin's max is below the next min. */
  predicate WellFormed(h: Histogram)
  {
    |h.mins| == |h.maxs| == |h.counts| &&
    (forall i :: 0 <= i < |h.mins| ==> h.mins[i] <= h.maxs[i]) &&
    (forall i :: 0 <= i < |h.mins| - 1 ==> h.maxs[i] < h.mins[i + 1])
  }

  lemma StatsAreWellFormed(vc: seq<ValueCount>, maxNumBins: nat, h: Histogram)
    requires |vc| > 0 && maxNumBins > 0 && IsBinStatsOf(vc, maxNumBins, h) && StrictlySorted(vc)
    ensures WellFormed(h)
  {
    forall i | 0 <= i < |h.mins| ensures h.mins[i] <= h.maxs[i] {
      StatsBin(vc, maxNumBins, h, i);
    }
    forall i | 0 <= i < |h.mins| - 1 ensures h.maxs[i] < h.mins[i + 1] {
      StatsBin(vc, maxNumBins, h, i);
      StatsBin(vc, maxNumBins, h, i + 1);
    }
  }

  lemma WellFormedMaxsIncreasing(h: Histogram)
    requires WellFormed(h)
    ensures Increasing(h.maxs)
  {
    forall i, j | 0 <= i < j < |h.maxs| ensures h.maxs[i] < h.maxs[j] {
      MaxsIncreasingFrom(h, i, j);
    }
  }

  lemma {:induction false} MaxsIncreasingFrom(h: Histogram, i: nat, j: nat)
    requires WellFormed(h) && i < j < |h.maxs|
    ensures h.maxs[i] < h.maxs[j] && h.maxs[i] < h.mins[j]
    decreases j - i
  {
    if i + 1 < j {
      MaxsIncreasingFrom(h, i, j - 1);
    }
  }

  // -------------------------------------------------------------------------------------------------
  // Lookups

  function NumBins(h: Histogram): nat { |h.counts| }

  /** `_bin_count_distinct(index)`. */
  function BinCountDistinct(h: Histogram, index: nat): nat
  {
    BinCountDistinctOf(index, h.distinctCountPerBin, h.numBinsWithExtraValue)
  }

  /** `total_count()`: the sum of the bin counts. */
  function TotalCount(h: Histogram): nat { Sum(h.counts) }

  /** `total_count_distinct()`. */
  function TotalCountDistinct(h: Histogram): nat
  {
    h.distinctCountPerBin * NumBins(h) + h.numBinsWithExtraValue
  }

  /**
   * `_bin_for_value(value)`: the first bin whose max is not below the value, provided the value also
   * lies within that bin; `None` stands for `INVALID_BIN_ID`.
   */
  function BinForValue(h: Histogram, value: int): (r: Option<nat>)
    requires |h.mins| == |h.maxs|
    ensures r.Some? ==> r.value < |h.maxs| && h.mins[r.value] <= value <= h.maxs[r.value]
  {
    var index := LowerBound(h.maxs, value);
    if index == |h.maxs| || value < h.mins[index] || value > h.maxs[index] then None else Some(index)
  }

  /** `_lower_bound_for_value(value)`: the first bin whose max is not less than the value. */
  function LowerBoundForValue(h: Histogram, value: int): (r: Option<nat>)
    ensures r.Some? ==> r.value < |h.maxs| && h.maxs[r.value] >= value
    ensures r.Some? ==> forall k :: 0 <= k < r.value ==> h.maxs[k] < value
    ensures r.None? <==> forall k :: 0 <= k < |h.maxs| ==> h.maxs[k] < value
  {
    var index := LowerBound(h.maxs, value);
    if index == |h.maxs| then None else Some(index)
  }

  /** `_upper_bound_for_value(value)`: the first bin whose max is greater than the value. */
  function UpperBoundForValue(h: Histogram, value: int): (r: Option<nat>)
    ensures r.Some? ==> r.value < |h.maxs| && h.maxs[r.value] > value
    ensures r.Some? ==> forall k :: 0 <= k < r.value ==> h.maxs[k] <= value
    ensures r.None? <==> forall k :: 0 <= k < |h.maxs| ==> h.maxs[k] <= value
  {
    var index := UpperBound(h.maxs, value);
    if index == |h.maxs| then None else Some(index)
  }

  /**
   * A value has a bin exactly when some bin's range holds it: gaps between bins, values below the
   * first bin and values above the last give `INVALID_BIN_ID`.
   */
  lemma BinForValueIffInBin(h: Histogram, value: int)
    requires WellFormed(h)
    ensures BinForValue(h, value).None? <==>
      forall i :: 0 <= i < |h.mins| ==> !(h.mins[i] <= value <= h.maxs[i])
    ensures forall i :: 0 <= i < |h.mins| && h.mins[i] <= value <= h.maxs[i] ==> BinForValue(h, value) == Some(i)
  {
    forall i | 0 <= i < |h.mins| && h.mins[i] <= value <= h.maxs[i]
      ensures BinForValue(h, value) == Some(i)
    {
      var index := LowerBound(h.maxs, value);
      if index < i {
        MaxsIncreasingFrom(h, index, i);
      }
    }
  }
}
