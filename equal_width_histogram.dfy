/**
 * Equal-width histogram: the integer range [min, max] is cut into `num_bins` consecutive ranges of
 * `base_width / num_bins` values each, the first `base_width % num_bins` of them one value wider.
 * Each bin stores how many occurrences and how many distinct values fall into its range; empty bins exist.
 */
module EqualWidthHistogram {
  import opened Wrappers
  import opened HistogramCommon
  import opened Arithmetic
  import HistogramUtils

  datatype Histogram = Histogram(min: int, max: int, counts: seq<nat>, distinctCounts: seq<nat>,
                                 numBinsWithLargerRange: nat)

  /** Requested bins capped at `cap`: the number of representable values or of distinct values. */
  function NumBinsFor(cap: nat, maxNumBins: nat): nat
  {
    if maxNumBins <= cap then maxNumBins else cap
  }

  /** The first value of bin i: each bin is `binWidth` wide, the first `extra` of them one value wider. */
  function BinBegin(min: int, binWidth: int, extra: nat, i: nat): int
  {
    if i == 0 then min else BinBegin(min, binWidth, extra, i - 1) + binWidth + (if i - 1 < extra then 1 else 0)
  }

  /** The closed form `min + i * bin_width + min(i, extra)`, the formula `_bin_min` is built on. */
  lemma {:induction false} BinBeginClosedForm(min: int, binWidth: int, extra: nat, i: nat)
    ensures BinBegin(min, binWidth, extra, i) == min + i * binWidth + Min(i, extra)
  {
    if i > 0 {
      BinBeginClosedForm(min, binWidth, extra, i - 1);
      MulSucc(i - 1, binWidth);
    }
  }

  lemma {:induction false} BinBeginMonotone(min: int, binWidth: int, extra: nat, i: nat, j: nat)
    requires i <= j && binWidth >= 0
    ensures BinBegin(min, binWidth, extra, i) <= BinBegin(min, binWidth, extra, j)
    decreases j - i
  {
    if i < j {
      BinBeginMonotone(min, binWidth, extra, i, j - 1);
    }
  }

  /** Up to bin `extra` every bin is `binWidth + 1` wide. */
  lemma BinBeginWide(min: int, binWidth: int, extra: nat, i: nat)
    requires i <= extra
    ensures BinBegin(min, binWidth, extra, i) == min + i * (binWidth + 1)
  {
    BinBeginClosedForm(min, binWidth, extra, i);
    MulAdd(i, binWidth, 1);
  }

  /** From bin `extra` on every bin is `binWidth` wide. */
  lemma BinBeginNarrow(min: int, binWidth: int, extra: nat, i: nat)
    requires i >= extra
    ensures BinBegin(min, binWidth, extra, i) == BinBegin(min, binWidth, extra, extra) + (i - extra) * binWidth
  {
    BinBeginClosedForm(min, binWidth, extra, i);
    BinBeginClosedForm(min, binWidth, extra, extra);
    MulAdd(binWidth, extra, i - extra);
  }

  /** The bins end exactly at max: `num_bins * bin_width + num_bins_with_larger_range` is the base width. */
  lemma BinBeginLast(min: int, range: nat, numBins: nat)
    requires numBins > 0
    ensures BinBegin(min, range / numBins, range % numBins, numBins) == min + range
  {
    BinBeginClosedForm(min, range / numBins, range % numBins, numBins);
    DivModIdentity(range, numBins);
  }

  /** Position in `value_counts` where bin i begins: where the scan for values below its first value stops. */
  function BinStart(vc: seq<ValueCount>, min: int, binWidth: int, extra: nat, i: nat): nat
  {
    ValuesBelow(vc, BinBegin(min, binWidth, extra, i))
  }

  /** Bin i counts the occurrences and the distinct values in its run of `value_counts`. */
  predicate BinHolds(vc: seq<ValueCount>, min: int, binWidth: int, extra: nat,
                     counts: seq<nat>, distinctCounts: seq<nat>, i: nat)
    requires i < |counts| && i < |distinctCounts|
  {
    var b := BinStart(vc, min, binWidth, extra, i);
    var e := BinStart(vc, min, binWidth, extra, i + 1);
    b <= e && counts[i] == Total(vc[b..e]) && distinctCounts[i] == e - b
  }

  predicate BinsOf(vc: seq<ValueCount>, min: int, numBins: nat, binWidth: int, extra: nat,
                   counts: seq<nat>, distinctCounts: seq<nat>)
  {
    |counts| == numBins && |distinctCounts| == numBins &&
    forall i :: 0 <= i < numBins ==> BinHolds(vc, min, binWidth, extra, counts, distinctCounts, i)
  }

  /** The stats of `value_counts` with the given number of bins over [first value, last value]. */
  predicate IsBinStatsWith(vc: seq<ValueCount>, numBins: nat, h: Histogram)
  {
    |vc| > 0 && h.min == vc[0].0 && h.max == vc[|vc| - 1].0 && h.min <= h.max && numBins > 0 &&
    var range := h.max - h.min + 1;
    h.numBinsWithLargerRange == range % numBins &&
    BinsOf(vc, h.min, numBins, range / numBins, range % numBins, h.counts, h.distinctCounts)
  }

  /** What `_get_bin_stats` computes: the bins are capped at the number of representable values. */
  predicate IsBinStatsOf(vc: seq<ValueCount>, maxNumBins: nat, h: Histogram)
    requires |vc| > 0
  {
    vc[0].0 <= vc[|vc| - 1].0 &&
    IsBinStatsWith(vc, NumBinsFor(vc[|vc| - 1].0 - vc[0].0 + 1, maxNumBins), h)
  }

  /**
   * The bin loop shared by `_get_bin_stats` and `_generate`: bin by bin, find where the values of the
   * bin's range end with a scan that, as in the source, always restarts at the front of `value_counts`.
   */
  method FillBins(vc: seq<ValueCount>, min: int, numBins: nat, binWidth: int, extra: nat)
    returns (counts: seq<nat>, distinctCounts: seq<nat>)
    requires |vc| > 0 && vc[0].0 == min && binWidth >= 0
    ensures BinsOf(vc, min, numBins, binWidth, extra, counts, distinctCounts)
  {
    counts := [];
    distinctCounts := [];
    var currentBeginValue := min;
    var currentBeginIndex := 0;
    var currentBinId := 0;
    while currentBinId < numBins
      invariant currentBinId <= numBins
      invariant currentBeginValue == BinBegin(min, binWidth, extra, currentBinId)
      invariant currentBeginIndex == BinStart(vc, min, binWidth, extra, currentBinId)
      invariant |counts| == currentBinId && |distinctCounts| == currentBinId
      invariant forall i :: 0 <= i < currentBinId ==> BinHolds(vc, min, binWidth, extra, counts, distinctCounts, i)
    {
      var nextBeginValue := currentBeginValue + binWidth;
      var currentEndValue := nextBeginValue - 1;
      if currentBinId < extra {
        currentEndValue := currentEndValue + 1;
        nextBeginValue := nextBeginValue + 1;
      }
      var nextBeginIndex := 0;
      while nextBeginIndex < |vc| && vc[nextBeginIndex].0 <= currentEndValue
        invariant nextBeginIndex <= |vc|
        invariant forall k :: 0 <= k < nextBeginIndex ==> vc[k].0 <= currentEndValue
      {
        nextBeginIndex := nextBeginIndex + 1;
      }
      assert nextBeginValue == BinBegin(min, binWidth, extra, currentBinId + 1);
      ValuesBelowIs(vc, nextBeginValue, nextBeginIndex);
      ValuesBelowMonotone(vc, currentBeginValue, nextBeginValue);
      assert nextBeginIndex == BinStart(vc, min, binWidth, extra, currentBinId + 1);
      var counts', distinctCounts' := counts + [Total(vc[currentBeginIndex..nextBeginIndex])],
                                      distinctCounts + [nextBeginIndex - currentBeginIndex];
      forall i | 0 <= i < currentBinId + 1
        ensures BinHolds(vc, min, binWidth, extra, counts', distinctCounts', i)
      {
        if i < currentBinId {
          assert BinHolds(vc, min, binWidth, extra, counts, distinctCounts, i);
        } else {
          assert counts'[i] == Total(vc[currentBeginIndex..nextBeginIndex]);
          assert distinctCounts'[i] == nextBeginIndex - currentBeginIndex;
        }
      }
      counts, distinctCounts := counts', distinctCounts';
      currentBeginValue := nextBeginValue;
      currentBeginIndex := nextBeginIndex;
      currentBinId := currentBinId + 1;
    }
  }

  /** `_get_bin_stats(value_counts, max_num_bins)` for integers. */
  method GetBinStats(vc: seq<ValueCount>, maxNumBins: nat) returns (h: Histogram)
    requires |vc| > 0 && maxNumBins > 0 && vc[0].0 <= vc[|vc| - 1].0
    ensures IsBinStatsOf(vc, maxNumBins, h)
  {
    var min := vc[0].0;
    var max := vc[|vc| - 1].0;
    var baseWidth := max - min + 1;
    var numBins := if maxNumBins <= baseWidth then maxNumBins else baseWidth;
    var binWidth := baseWidth / numBins;
    var numBinsWithLargerRange := baseWidth % numBins;
    var counts, distinctCounts := FillBins(vc, min, numBins, binWidth, numBinsWithLargerRange);
    h := Histogram(min, max, counts, distinctCounts, numBinsWithLargerRange);
  }

  /** `_generate(distinct_column, count_column, max_num_bins)`: the bins are capped at the number of distinct values. */
  method Generate(distinctValues: seq<int>, occurrences: seq<nat>, maxNumBins: nat) returns (h: Histogram)
    requires |distinctValues| == |occurrences| > 0 && maxNumBins > 0
    requires distinctValues[0] <= distinctValues[|distinctValues| - 1]
    ensures IsBinStatsWith(Zip(distinctValues, occurrences), NumBinsFor(|distinctValues|, maxNumBins), h)
  {
    var vc := Zip(distinctValues, occurrences);
    var min := distinctValues[0];
    var max := distinctValues[|distinctValues| - 1];
    var numBins := if maxNumBins <= |distinctValues| then maxNumBins else |distinctValues|;
    var baseWidth := max - min;
    var binWidth := (baseWidth + 1) / numBins;
    var numBinsWithLargerRange := (baseWidth + 1) % numBins;
    var counts, distinctCounts := FillBins(vc, min, numBins, binWidth, numBinsWithLargerRange);
    h := Histogram(min, max, counts, distinctCounts, numBinsWithLargerRange);
  }

  // -------------------------------------------------------------------------------------------------
  // Properties of the bins

  /** Strictly increasing integers span at least as many values as there are of them. */
  lemma {:induction false} SortedSpan(vc: seq<ValueCount>)
    requires StrictlySorted(vc) && |vc| > 0
    ensures vc[|vc| - 1].0 - vc[0].0 + 1 >= |vc|
  {
    if |vc| > 1 {
      var p := vc[..|vc| - 1];
      assert StrictlySorted(p);
      SortedSpan(p);
      assert vc[|vc| - 2].0 < vc[|vc| - 1].0;
    }
  }

  /**
   * On sorted input with at most as many requested bins as distinct values, `_generate` builds the
   * same bins as `_get_bin_stats`.
   */
  lemma GenerateAgreesWithStats(vc: seq<ValueCount>, maxNumBins: nat, h: Histogram)
    requires StrictlySorted(vc) && |vc| > 0 && maxNumBins <= |vc|
    ensures IsBinStatsWith(vc, NumBinsFor(|vc|, maxNumBins), h) <==> IsBinStatsOf(vc, maxNumBins, h)
  {
    SortedSpan(vc);
    if |vc| > 1 {
      assert vc[0].0 < vc[|vc| - 1].0;
    }
  }

  lemma BinStartMonotone(vc: seq<ValueCount>, min: int, binWidth: int, extra: nat, i: nat, j: nat)
    requires i <= j && binWidth >= 0
    ensures BinStart(vc, min, binWidth, extra, i) <= BinStart(vc, min, binWidth, extra, j)
  {
    BinBeginMonotone(min, binWidth, extra, i, j);
    ValuesBelowMonotone(vc, BinBegin(min, binWidth, extra, i), BinBegin(min, binWidth, extra, j));
  }

  /** The bins start at the front of `value_counts`, and on sorted input the last one ends at its back. */
  lemma StatsCoverValues(vc: seq<ValueCount>, numBins: nat, h: Histogram)
    requires IsBinStatsWith(vc, numBins, h) && StrictlySorted(vc)
    ensures var range := h.max - h.min + 1;
      BinBegin(h.min, range / numBins, range % numBins, 0) == h.min &&
      BinBegin(h.min, range / numBins, range % numBins, numBins) == h.max + 1 &&
      BinStart(vc, h.min, range / numBins, range % numBins, 0) == 0 &&
      BinStart(vc, h.min, range / numBins, range % numBins, numBins) == |vc|
  {
    var range := h.max - h.min + 1;
    BinBeginLast(h.min, range, numBins);
    ValuesBelowIs(vc, h.max + 1, |vc|);
  }

  /**
   * Each distinct value is counted in the bin whose range holds it: on sorted input its position lies
   * in bin i's run exactly when its value lies in bin i's range.
   */
  lemma PositionInBinIffValueInRange(vc: seq<ValueCount>, numBins: nat, h: Histogram, j: nat, i: nat)
    requires IsBinStatsWith(vc, numBins, h) && StrictlySorted(vc) && j < |vc| && i < numBins
    ensures var range := h.max - h.min + 1;
      var bw, extra := range / numBins, range % numBins;
      BinStart(vc, h.min, bw, extra, i) <= j < BinStart(vc, h.min, bw, extra, i + 1) <==>
      BinBegin(h.min, bw, extra, i) <= vc[j].0 < BinBegin(h.min, bw, extra, i + 1)
  {
    var range := h.max - h.min + 1;
    var bw, extra := range / numBins, range % numBins;
    ValuesBelowSorted(vc, BinBegin(h.min, bw, extra, i), j);
    ValuesBelowSorted(vc, BinBegin(h.min, bw, extra, i + 1), j);
  }

  /** Every distinct value is counted in exactly one bin. */
  lemma EveryValueInOneBin(vc: seq<ValueCount>, numBins: nat, h: Histogram, j: nat) returns (i: nat)
    requires IsBinStatsWith(vc, numBins, h) && StrictlySorted(vc) && j < |vc|
    ensures var range := h.max - h.min + 1;
      var bw, extra := range / numBins, range % numBins;
      i < numBins &&
      BinStart(vc, h.min, bw, extra, i) <= j < BinStart(vc, h.min, bw, extra, i + 1) &&
      forall i' :: 0 <= i' < numBins && BinStart(vc, h.min, bw, extra, i') <= j < BinStart(vc, h.min, bw, extra, i' + 1)
        ==> i' == i
  {
    var range := h.max - h.min + 1;
    var bw, extra := range / numBins, range % numBins;
    StatsCoverValues(vc, numBins, h);
    i := FindRun(vc, h.min, bw, extra, numBins, j, 0);
    forall i' | 0 <= i' < numBins && BinStart(vc, h.min, bw, extra, i') <= j < BinStart(vc, h.min, bw, extra, i' + 1)
      ensures i' == i
    {
      RunsDisjoint(vc, h.min, bw, extra, i, i', j);
    }
  }

  /** The runs of two different bins never share a position. */
  lemma RunsDisjoint(vc: seq<ValueCount>, min: int, binWidth: int, extra: nat, i: nat, i': nat, j: nat)
    requires binWidth >= 0
    requires BinStart(vc, min, binWidth, extra, i) <= j < BinStart(vc, min, binWidth, extra, i + 1)
    requires BinStart(vc, min, binWidth, extra, i') <= j < BinStart(vc, min, binWidth, extra, i' + 1)
    ensures i == i'
  {
    if i' < i {
      BinStartMonotone(vc, min, binWidth, extra, i' + 1, i);
    } else if i < i' {
      BinStartMonotone(vc, min, binWidth, extra, i + 1, i');
    }
  }

  lemma {:induction false} FindRun(vc: seq<ValueCount>, min: int, binWidth: int, extra: nat, numBins: nat, j: nat, lo: nat)
    returns (i: nat)
    requires lo < numBins && BinStart(vc, min, binWidth, extra, lo) <= j < BinStart(vc, min, binWidth, extra, numBins)
    ensures lo <= i < numBins
    ensures BinStart(vc, min, binWidth, extra, i) <= j < BinStart(vc, min, binWidth, extra, i + 1)
    decreases numBins - lo
  {
    if j < BinStart(vc, min, binWidth, extra, lo + 1) {
      i := lo;
    } else {
      i := FindRun(vc, min, binWidth, extra, numBins, j, lo + 1);
    }
  }

  /** The counts of the first k bins are the occurrences and distinct values up to where bin k begins. */
  lemma {:induction false} PrefixSums(vc: seq<ValueCount>, min: int, numBins: nat, binWidth: int, extra: nat,
                                      counts: seq<nat>, distinctCounts: seq<nat>, k: nat)
    requires BinsOf(vc, min, numBins, binWidth, extra, counts, distinctCounts) && k <= numBins
    requires BinStart(vc, min, binWidth, extra, 0) == 0
    ensures Sum(counts[..k]) == Total(vc[..BinStart(vc, min, binWidth, extra, k)])
    ensures Sum(distinctCounts[..k]) == BinStart(vc, min, binWidth, extra, k)
  {
    if k == 0 {
      assert counts[..0] == [] && distinctCounts[..0] == [];
    } else {
      PrefixSums(vc, min, numBins, binWidth, extra, counts, distinctCounts, k - 1);
      assert BinHolds(vc, min, binWidth, extra, counts, distinctCounts, k - 1);
      var b := BinStart(vc, min, binWidth, extra, k - 1);
      var e := BinStart(vc, min, binWidth, extra, k);
      TotalSplit(vc, 0, b, e);
      assert vc[0..e] == vc[..e] && vc[0..b] == vc[..b];
      assert counts[..k][..k - 1] == counts[..k - 1];
      assert distinctCounts[..k][..k - 1] == distinctCounts[..k - 1];
    }
  }

  /** `total_count` is all occurrences and `total_count_distinct` all distinct values. */
  lemma TotalsOfStats(vc: seq<ValueCount>, numBins: nat, h: Histogram)
    requires IsBinStatsWith(vc, numBins, h) && StrictlySorted(vc)
    ensures TotalCount(h) == Total(vc) && TotalCountDistinct(h) == |vc|
  {
    var range := h.max - h.min + 1;
    StatsCoverValues(vc, numBins, h);
    PrefixSums(vc, h.min, numBins, range / numBins, range % numBins, h.counts, h.distinctCounts, numBins);
    assert h.counts[..numBins] == h.counts && h.distinctCounts[..numBins] == h.distinctCounts;
    assert vc[..|vc|] == vc;
  }

  // -------------------------------------------------------------------------------------------------
  // Lookups

  function NumBins(h: Histogram): nat { |h.counts| }

  function TotalCount(h: Histogram): nat { Sum(h.counts) }

  function TotalCountDistinct(h: Histogram): nat { Sum(h.distinctCounts) }

  function BinCount(h: Histogram, index: nat): nat
    requires index < |h.counts|
  {
    h.counts[index]
  }

  function BinCountDistinct(h: Histogram, index: nat): nat
    requires index < |h.distinctCounts|
  {
    h.distinctCounts[index]
  }

  /** A histogram as `_get_bin_stats` or `_generate` leave it: at least one bin and no more bins than values. */
  predicate WellFormed(h: Histogram)
  {
    0 < |h.counts| == |h.distinctCounts| && h.min <= h.max && |h.counts| <= h.max - h.min + 1 &&
    h.numBinsWithLargerRange == (h.max - h.min + 1) % |h.counts|
  }

  /** `_bin_width(index)`: the common width, plus one for the first `num_bins_with_larger_range` bins. */
  function BinWidth(h: Histogram, index: nat): int
    requires index < NumBins(h)
  {
    CommonWidth(h) + (if index < h.numBinsWithLargerRange then 1 else 0)
  }

  /** `get_next_value(_max - _min) / num_bins()`: the width of the narrower bins. */
  function CommonWidth(h: Histogram): int
    requires NumBins(h) > 0
  {
    (h.max - h.min + 1) / NumBins(h)
  }

  /** `_bin_min(index)` as written: `_min + index * _bin_width(index) + min(index, num_bins_with_larger_range)`. */
  function BinMinAsWritten(h: Histogram, index: nat): int
    requires index < NumBins(h)
  {
    h.min + index * BinWidth(h, index) + Min(index, h.numBinsWithLargerRange)
  }

  /** The first value of bin `index` as the bin loop lays the bins out. */
  function BinMin(h: Histogram, index: nat): int
    requires index < NumBins(h)
  {
    BinBegin(h.min, CommonWidth(h), h.numBinsWithLargerRange, index)
  }

  /** `_bin_max(index)`: `_max` for the last bin, else the value before the next bin's min. */
  function BinMax(h: Histogram, index: nat): int
    requires index < NumBins(h)
  {
    if index == NumBins(h) - 1 then h.max else BinMin(h, index + 1) - 1
  }

  /** For a wide bin other than the first, `_bin_min` as written is too high by the bin's index. */
  lemma BinMinAsWrittenOffset(h: Histogram, index: nat)
    requires index < NumBins(h)
    ensures BinMinAsWritten(h, index) == BinMin(h, index) + (if index < h.numBinsWithLargerRange then index else 0)
  {
    BinBeginClosedForm(h.min, CommonWidth(h), h.numBinsWithLargerRange, index);
    MulAdd(index, CommonWidth(h), 1);
  }

  /** Values 0..9 in four bins are [0, 2], [3, 5], [6, 7], [8, 9]; `_bin_min(1)` as written says 4. */
  lemma BinMinAsWrittenExample()
    ensures var h := Histogram(0, 9, [1, 1, 1, 1], [1, 1, 1, 1], 2);
      WellFormed(h) && BinMin(h, 1) == 3 && BinMinAsWritten(h, 1) == 4 &&
      BinMax(h, 0) == 2 && BinMin(h, 2) == 6 && BinMin(h, 3) == 8 && BinMax(h, 3) == 9
  {
    var h := Histogram(0, 9, [1, 1, 1, 1], [1, 1, 1, 1], 2);
    BinMinAsWrittenOffset(h, 1);
  }

  /** Of a well-formed histogram, every bin is `_bin_width` wide: it ends just before the next begins, the last at max. */
  lemma BinMaxIsNextBeginMinusOne(h: Histogram, index: nat)
    requires WellFormed(h) && index < NumBins(h)
    ensures BinMax(h, index) == BinBegin(h.min, CommonWidth(h), h.numBinsWithLargerRange, index + 1) - 1
    ensures BinWidth(h, index) == BinMax(h, index) - BinMin(h, index) + 1
  {
    BinBeginLast(h.min, h.max - h.min + 1, NumBins(h));
    
  }

  /** Dividing a nonnegative offset below n strides of width w names the stride holding it. */
  lemma StrideOf(x: int, w: int, n: int)
    requires w > 0 && 0 <= x < n * w
    ensures 0 <= x / w < n && (x / w) * w <= x < (x / w + 1) * w
  {
    DivModIdentity(x, w);
    MulSucc(x / w, w);
    MulCancelLt(x / w, n, w);
  }

  /** The bin width is positive because there are no more bins than values. */
  lemma BinWidthPositive(h: Histogram)
    requires WellFormed(h)
    ensures CommonWidth(h) >= 1
    ensures h.numBinsWithLargerRange < NumBins(h)
  {
    DivModIdentity(h.max - h.min + 1, NumBins(h));
  }

  /**
   * `_bin_for_value(value)`: INVALID outside [_min, _max]; otherwise the offset divided by the width of
   * bin 0 while the value is in one of the wider bins, else by the width of the narrower ones from there.
   */
  function BinForValue(h: Histogram, value: int): (r: Option<nat>)
    requires WellFormed(h)
    ensures r.None? <==> value < h.min || value > h.max
    ensures r.Some? ==> r.value < NumBins(h) && BinMin(h, r.value) <= value <= BinMax(h, r.value)
  {
    BinWidthPositive(h);
    var extra := h.numBinsWithLargerRange;
    if value < h.min || value > h.max then None
    else if extra == 0 || value <= BinMax(h, extra - 1) then
      BinForValueWide(h, value);
      Some((value - h.min) / BinWidth(h, 0))
    else
      BinForValueNarrow(h, value);
      Some(extra + (value - BinMin(h, extra)) / BinWidth(h, extra))
  }

  lemma BinForValueWide(h: Histogram, value: int)
    requires WellFormed(h) && h.min <= value <= h.max
    requires h.numBinsWithLargerRange == 0 || value <= BinMax(h, h.numBinsWithLargerRange - 1)
    ensures var q := (value - h.min) / BinWidth(h, 0);
      q < NumBins(h) && BinMin(h, q) <= value <= BinMax(h, q)
  {
    BinWidthPositive(h);
    var nb := NumBins(h);
    var bw := CommonWidth(h);
    var extra := h.numBinsWithLargerRange;
    var x := value - h.min;
    var q := x / BinWidth(h, 0);
    BinBeginLast(h.min, h.max - h.min + 1, nb);
    if extra == 0 {
      BinBeginNarrow(h.min, bw, extra, nb);
      StrideOf(x, bw, nb);
      BinBeginNarrow(h.min, bw, extra, q);
      BinBeginNarrow(h.min, bw, extra, q + 1);
    } else {
      BinMaxIsNextBeginMinusOne(h, extra - 1);
      BinBeginWide(h.min, bw, extra, extra);
      StrideOf(x, bw + 1, extra);
      BinBeginWide(h.min, bw, extra, q);
      BinBeginWide(h.min, bw, extra, q + 1);
    }
    BinMaxIsNextBeginMinusOne(h, q);
  }

  lemma BinForValueNarrow(h: Histogram, value: int)
    requires WellFormed(h) && h.min <= value <= h.max
    requires h.numBinsWithLargerRange > 0 && value > BinMax(h, h.numBinsWithLargerRange - 1)
    ensures h.numBinsWithLargerRange < NumBins(h)
    ensures var extra := h.numBinsWithLargerRange;
      var q := extra + (value - BinMin(h, extra)) / BinWidth(h, extra);
      q < NumBins(h) && BinMin(h, q) <= value <= BinMax(h, q)
  {
    BinWidthPositive(h);
    var nb := NumBins(h);
    var bw := CommonWidth(h);
    var extra := h.numBinsWithLargerRange;
    BinMaxIsNextBeginMinusOne(h, extra - 1);
    var y := value - BinMin(h, extra);
    BinBeginLast(h.min, h.max - h.min + 1, nb);
    BinBeginNarrow(h.min, bw, extra, nb);
    StrideOf(y, bw, nb - extra);
    var q := extra + y / bw;
    BinBeginNarrow(h.min, bw, extra, q);
    BinBeginNarrow(h.min, bw, extra, q + 1);
    BinMaxIsNextBeginMinusOne(h, q);
  }

  /** The bins of a well-formed histogram tile [_min, _max]: a value has bin i exactly when it lies in it. */
  lemma BinForValueIffInBin(h: Histogram, value: int, i: nat)
    requires WellFormed(h) && i < NumBins(h)
    ensures BinForValue(h, value) == Some(i) <==> BinMin(h, i) <= value <= BinMax(h, i)
  {
    var bw := CommonWidth(h);
    var extra := h.numBinsWithLargerRange;
    BinWidthPositive(h);
    BinMaxIsNextBeginMinusOne(h, i);
    BinBeginLast(h.min, h.max - h.min + 1, NumBins(h));
    if BinMin(h, i) <= value <= BinMax(h, i) {
      BinBeginMonotone(h.min, bw, extra, 0, i);
      BinBeginMonotone(h.min, bw, extra, i + 1, NumBins(h));
      var r := BinForValue(h, value);
      var q := r.value;
      BinMaxIsNextBeginMinusOne(h, q);
      if q < i {
        BinBeginMonotone(h.min, bw, extra, q + 1, i);
      } else if i < q {
        BinBeginMonotone(h.min, bw, extra, i + 1, q);
      }
    }
  }

  /** `_lower_bound_for_value(value)`: bin 0 below `_min`, otherwise the value's bin. */
  function LowerBoundForValue(h: Histogram, value: int): (r: Option<nat>)
    requires WellFormed(h)
    ensures value < h.min ==> r == Some(0)
    ensures value >= h.min ==> r == BinForValue(h, value)
  {
    if value < h.min then Some(0) else BinForValue(h, value)
  }

  /**
   * `_upper_bound_for_value(value)` as written: bin 0 below `_min`; otherwise the next bin when the index
   * is below `num_bins() - 2`, a `size_t` subtraction that wraps for a single bin.
   */
  function UpperBoundForValue(h: Histogram, value: int): (r: Option<nat>)
    requires WellFormed(h)
    ensures value < h.min ==> r == Some(0)
    ensures value > h.max ==> r.None?
  {
    if value < h.min then Some(0)
    else
      match BinForValue(h, value)
      case None => None
      case Some(index) =>
        if index < (NumBins(h) - 2) % HistogramUtils.UINT64_MODULUS then Some(index + 1) else None
  }

  /**
   * The next bin is returned only up to the third-to-last bin: a value in the second-to-last bin gets
   * INVALID, and with a single bin a value in range gets index 1, past the last bin.
   */
  lemma UpperBoundForValueCases(h: Histogram, value: int, i: nat)
    requires WellFormed(h) && i < NumBins(h) < HistogramUtils.UINT64_MODULUS
    requires BinMin(h, i) <= value <= BinMax(h, i)
    ensures NumBins(h) >= 2 ==> (UpperBoundForValue(h, value) == Some(i + 1) <==> i + 2 < NumBins(h))
    ensures NumBins(h) >= 2 ==> (UpperBoundForValue(h, value).None? <==> i + 2 >= NumBins(h))
    ensures NumBins(h) == 1 ==> UpperBoundForValue(h, value) == Some(1)
  {
    BinForValueIffInBin(h, value, i);
    BinWidthPositive(h);
    BinBeginMonotone(h.min, CommonWidth(h), h.numBinsWithLargerRange, 0, i);
    SizeMinusTwo(NumBins(h));
  }

  /** `num_bins() - 2` in `size_t`: exact from two bins on, the largest `size_t` for a single bin. */
  lemma SizeMinusTwo(n: nat)
    requires 0 < n < HistogramUtils.UINT64_MODULUS
    ensures n >= 2 ==> (n - 2) % HistogramUtils.UINT64_MODULUS == n - 2
    ensures n == 1 ==> (n - 2) % HistogramUtils.UINT64_MODULUS == HistogramUtils.UINT64_MODULUS - 1
  {
  }

  /** A histogram built from sorted input is well formed. */
  lemma StatsAreWellFormed(vc: seq<ValueCount>, maxNumBins: nat, h: Histogram)
    requires |vc| > 0 && IsBinStatsOf(vc, maxNumBins, h)
    ensures WellFormed(h)
  {
  }

  lemma GeneratedIsWellFormed(vc: seq<ValueCount>, maxNumBins: nat, h: Histogram)
    requires StrictlySorted(vc) && |vc| > 0 && IsBinStatsWith(vc, NumBinsFor(|vc|, maxNumBins), h)
    ensures WellFormed(h)
  {
    SortedSpan(vc);
  }
}
