/**
 * Equal-height histogram: bins are closed greedily along the sorted values as soon as their summed
 * occurrence count reaches `count_per_bin` = ceil(total_count / num_bins); what is left at the end forms
 * one last bin.  Only the bin maxima, the distinct counts, the minimum and the total count are stored.
 */
module EqualHeightHistogram {
  import opened Wrappers
  import opened HistogramCommon
  import opened Arithmetic

  datatype Histogram = Histogram(maxs: seq<int>, distinctCounts: seq<nat>, min: int, totalCount: nat)

  /** ceil(total / numBins), computed as the source does with a division and a remainder test. */
  function CountPerBin(total: nat, numBins: nat): nat
    requires numBins > 0
  {
    total / numBins + (if total % numBins > 0 then 1 else 0)
  }

  /** Index of `value_counts` where bin k begins: the distinct counts of the earlier bins. */
  function Start(dcs: seq<nat>, k: nat): (r: nat)
    requires k <= |dcs|
    ensures k == |dcs| ==> r == Sum(dcs)
  {
    assert k == |dcs| ==> dcs[..k] == dcs;
    Sum(dcs[..k])
  }

  /** The bin that begins at b ends at e - 1: its height first reaches `count_per_bin` there. */
  predicate ClosesAt(vc: seq<ValueCount>, countPerBin: nat, b: nat, e: nat)
  {
    b < e <= |vc| && Total(vc[b..e]) >= countPerBin &&
    forall e' :: b < e' < e ==> Total(vc[b..e']) < countPerBin
  }

  /** Between b and j the running height of the bin begun at b stays below `count_per_bin`. */
  predicate OpenRun(vc: seq<ValueCount>, countPerBin: nat, b: nat, j: nat)
  {
    b <= j <= |vc| && forall e' :: b < e' <= j ==> Total(vc[b..e']) < countPerBin
  }

  /** From b on, the running height never reaches `count_per_bin`. */
  predicate NeverCloses(vc: seq<ValueCount>, countPerBin: nat, b: nat)
    requires b <= |vc|
  {
    OpenRun(vc, countPerBin, b, |vc|)
  }

  /** One more value either keeps the bin open or closes it. */
  lemma OpenRunStep(vc: seq<ValueCount>, countPerBin: nat, b: nat, j: nat)
    requires OpenRun(vc, countPerBin, b, j) && j < |vc|
    ensures Total(vc[b..j + 1]) < countPerBin ==> OpenRun(vc, countPerBin, b, j + 1)
    ensures Total(vc[b..j + 1]) >= countPerBin ==> ClosesAt(vc, countPerBin, b, j + 1)
  {
  }

  /** Bin k covers a nonempty run of `value_counts` and its max is the run's last value. */
  predicate Placed(vc: seq<ValueCount>, maxs: seq<int>, dcs: seq<nat>, k: nat)
    requires k < |dcs| == |maxs|
  {
    Start(dcs, k) < Start(dcs, k + 1) <= |vc| && maxs[k] == vc[Start(dcs, k + 1) - 1].0
  }

  /** Bin k was closed because its height reached `count_per_bin`. */
  predicate Closed(vc: seq<ValueCount>, countPerBin: nat, dcs: seq<nat>, k: nat)
    requires k < |dcs|
  {
    ClosesAt(vc, countPerBin, Start(dcs, k), Start(dcs, k + 1))
  }

  /** The loop's state: all bins so far are placed and were closed by reaching `count_per_bin`. */
  predicate ClosedBins(vc: seq<ValueCount>, countPerBin: nat, maxs: seq<int>, dcs: seq<nat>)
  {
    |maxs| == |dcs| && Sum(dcs) <= |vc| &&
    forall k :: 0 <= k < |dcs| ==> Placed(vc, maxs, dcs, k) && Closed(vc, countPerBin, dcs, k)
  }

  /** The last bin is the leftover run from its start to the end, with positive height that never closes. */
  predicate Leftover(vc: seq<ValueCount>, countPerBin: nat, dcs: seq<nat>)
    requires |dcs| > 0 && Sum(dcs) <= |vc|
  {
    Sum(dcs) == |vc| && Start(dcs, |dcs| - 1) <= |vc| &&
    NeverCloses(vc, countPerBin, Start(dcs, |dcs| - 1)) && Total(vc[Start(dcs, |dcs| - 1)..]) > 0
  }

  /**
   * The bins `_get_bin_stats` produces: every bin but possibly the last closes where its height first
   * reaches `count_per_bin`; the last one either closes as well or is the leftover run up to the largest
   * value with positive height; a trailing run whose height stays 0 gets no bin.
   */
  predicate IsEqualHeightBins(vc: seq<ValueCount>, countPerBin: nat, maxs: seq<int>, dcs: seq<nat>)
  {
    |maxs| == |dcs| && Sum(dcs) <= |vc| &&
    (forall k :: 0 <= k < |dcs| ==> Placed(vc, maxs, dcs, k)) &&
    (forall k :: 0 <= k < |dcs| - 1 ==> Closed(vc, countPerBin, dcs, k)) &&
    (|dcs| > 0 ==> Closed(vc, countPerBin, dcs, |dcs| - 1) || Leftover(vc, countPerBin, dcs)) &&
    (Sum(dcs) == |vc| || (NeverCloses(vc, countPerBin, Sum(dcs)) && Total(vc[Sum(dcs)..]) == 0))
  }

  lemma StartAppend(dcs: seq<nat>, x: nat)
    ensures forall k :: 0 <= k <= |dcs| ==> Start(dcs + [x], k) == Start(dcs, k)
    ensures Sum(dcs + [x]) == Sum(dcs) + x
  {
    forall k | 0 <= k <= |dcs| ensures Start(dcs + [x], k) == Start(dcs, k) {
      assert (dcs + [x])[..k] == dcs[..k];
    }
    assert (dcs + [x])[..|dcs|] == dcs;
  }

  /** Closing a bin at e keeps the loop's state. */
  lemma AppendClosed(vc: seq<ValueCount>, countPerBin: nat, maxs: seq<int>, dcs: seq<nat>, e: nat)
    requires ClosedBins(vc, countPerBin, maxs, dcs) && ClosesAt(vc, countPerBin, Sum(dcs), e)
    ensures ClosedBins(vc, countPerBin, maxs + [vc[e - 1].0], dcs + [e - Sum(dcs)])
  {
    var maxs', dcs' := maxs + [vc[e - 1].0], dcs + [e - Sum(dcs)];
    EarlierBinsKept(vc, countPerBin, maxs, dcs, vc[e - 1].0, e - Sum(dcs));
    StartAppend(dcs, e - Sum(dcs));
    assert Placed(vc, maxs', dcs', |dcs|) && Closed(vc, countPerBin, dcs', |dcs|);
  }

  /** A round of the loop whose height reaches `count_per_bin` closes the bin at j and opens an empty one. */
  lemma CloseBin(vc: seq<ValueCount>, countPerBin: nat, maxs: seq<int>, dcs: seq<nat>, j: nat)
    requires ClosedBins(vc, countPerBin, maxs, dcs) && OpenRun(vc, countPerBin, Sum(dcs), j) && j < |vc|
    requires Total(vc[Sum(dcs)..j + 1]) >= countPerBin
    ensures ClosedBins(vc, countPerBin, maxs + [vc[j].0], dcs + [j - Sum(dcs) + 1])
    ensures Sum(dcs + [j - Sum(dcs) + 1]) == j + 1
    ensures OpenRun(vc, countPerBin, j + 1, j + 1) && Total(vc[j + 1..j + 1]) == 0
  {
    OpenRunStep(vc, countPerBin, Sum(dcs), j);
    AppendClosed(vc, countPerBin, maxs, dcs, j + 1);
    StartAppend(dcs, j - Sum(dcs) + 1);
    assert vc[j + 1..j + 1] == [];
  }

  /** At the end of the input a positive leftover height becomes the last bin; a zero one is dropped. */
  lemma FinishBins(vc: seq<ValueCount>, countPerBin: nat, maxs: seq<int>, dcs: seq<nat>)
    requires ClosedBins(vc, countPerBin, maxs, dcs) && NeverCloses(vc, countPerBin, Sum(dcs))
    ensures Total(vc[Sum(dcs)..]) > 0 ==>
      IsEqualHeightBins(vc, countPerBin, maxs + [vc[|vc| - 1].0], dcs + [|vc| - Sum(dcs)])
    ensures Total(vc[Sum(dcs)..]) == 0 ==> IsEqualHeightBins(vc, countPerBin, maxs, dcs)
  {
    if Total(vc[Sum(dcs)..]) > 0 {
      FinishWithLeftover(vc, countPerBin, maxs, dcs);
    } else if |dcs| > 0 {
      assert Closed(vc, countPerBin, dcs, |dcs| - 1);
    }
  }

  /** The leftover run becomes the last bin: the earlier bins keep their places and stay closed. */
  lemma FinishWithLeftover(vc: seq<ValueCount>, countPerBin: nat, maxs: seq<int>, dcs: seq<nat>)
    requires ClosedBins(vc, countPerBin, maxs, dcs) && NeverCloses(vc, countPerBin, Sum(dcs))
    requires Total(vc[Sum(dcs)..]) > 0
    ensures IsEqualHeightBins(vc, countPerBin, maxs + [vc[|vc| - 1].0], dcs + [|vc| - Sum(dcs)])
  {
    var maxs', dcs' := maxs + [vc[|vc| - 1].0], dcs + [|vc| - Sum(dcs)];
    EarlierBinsKept(vc, countPerBin, maxs, dcs, vc[|vc| - 1].0, |vc| - Sum(dcs));
    StartAppend(dcs, |vc| - Sum(dcs));
    assert Start(dcs', |dcs'| - 1) == Sum(dcs);
    assert Placed(vc, maxs', dcs', |dcs|);
    assert Leftover(vc, countPerBin, dcs');
  }

  /** Appending a bin leaves the places and the closing of the earlier bins as they were. */
  lemma EarlierBinsKept(vc: seq<ValueCount>, countPerBin: nat, maxs: seq<int>, dcs: seq<nat>, m: int, x: nat)
    requires ClosedBins(vc, countPerBin, maxs, dcs)
    ensures forall k :: 0 <= k < |dcs| ==>
      Placed(vc, maxs + [m], dcs + [x], k) && Closed(vc, countPerBin, dcs + [x], k)
  {
    StartAppend(dcs, x);
    forall k | 0 <= k < |dcs| ensures Placed(vc, maxs + [m], dcs + [x], k) && Closed(vc, countPerBin, dcs + [x], k) {
      assert Placed(vc, maxs, dcs, k) && Closed(vc, countPerBin, dcs, k);
    }
  }

  /** The number of bins requested, capped at the number of distinct values. */
  function NumBinsFor(distinctCount: nat, maxNumBins: nat): nat
  {
    if maxNumBins <= distinctCount then maxNumBins else distinctCount
  }

  /**
   * `_get_bin_stats(value_counts, max_num_bins)`.  `front()` of an empty input and the division by a
   * zero bin count are excluded by the precondition; `from_column` returns early for an empty input
   * but does not check `max_num_bins`.
   */
  method GetBinStats(vc: seq<ValueCount>, maxNumBins: nat) returns (h: Histogram)
    requires |vc| > 0 && maxNumBins > 0
    ensures h.min == vc[0].0 && h.totalCount == Total(vc)
    ensures IsEqualHeightBins(vc, CountPerBin(Total(vc), NumBinsFor(|vc|, maxNumBins)), h.maxs, h.distinctCounts)
  {
    var min := vc[0].0;
    var numBins := if maxNumBins <= |vc| then maxNumBins else |vc|;
    var totalCount := Total(vc);
    var countPerBin := totalCount / numBins;
    if totalCount % numBins > 0 {
      countPerBin := countPerBin + 1;
    }
    assert numBins == NumBinsFor(|vc|, maxNumBins) && countPerBin == CountPerBin(totalCount, numBins);
    var maxs: seq<int> := [];
    var distinctCounts: seq<nat> := [];
    var currentBegin := 0;
    var currentHeight := 0;
    var currentEnd := 0;
    while currentEnd < |vc|
      invariant 0 <= currentBegin <= currentEnd <= |vc|
      invariant ClosedBins(vc, countPerBin, maxs, distinctCounts) && currentBegin == Sum(distinctCounts)
      invariant currentHeight == Total(vc[currentBegin..currentEnd])
      invariant OpenRun(vc, countPerBin, currentBegin, currentEnd)
    {
      TotalExtend(vc, currentBegin, currentEnd);
      currentHeight := currentHeight + vc[currentEnd].1;
      if currentHeight >= countPerBin {
        CloseBin(vc, countPerBin, maxs, distinctCounts, currentEnd);
        maxs := maxs + [vc[currentEnd].0];
        distinctCounts := distinctCounts + [currentEnd - currentBegin + 1];
        currentHeight := 0;
        currentBegin := currentEnd + 1;
      } else {
        OpenRunStep(vc, countPerBin, currentBegin, currentEnd);
      }
      currentEnd := currentEnd + 1;
    }
    FinishBins(vc, countPerBin, maxs, distinctCounts);
    assert vc[currentBegin..] == vc[currentBegin..currentEnd];
    if currentHeight > 0 {
      maxs := maxs + [vc[|vc| - 1].0];
      distinctCounts := distinctCounts + [|vc| - currentBegin];
    }
    h := Histogram(maxs, distinctCounts, min, totalCount);
  }

  // -------------------------------------------------------------------------------------------------
  // Properties of the bins

  /** `total_count <= num_bins * count_per_bin`: the rounding up never loses occurrences. */
  lemma CountPerBinCovers(total: nat, numBins: nat)
    requires numBins > 0
    ensures total <= numBins * CountPerBin(total, numBins)
    ensures total > 0 ==> CountPerBin(total, numBins) > 0
  {
    DivModIdentity(total, numBins);
    if total % numBins > 0 {
      MulSucc(total / numBins, numBins);
    }
  }

  /** The closed bins 0..c-1 together hold at least c * count_per_bin occurrences. */
  lemma {:induction false} ClosedBinsHeight(vc: seq<ValueCount>, countPerBin: nat, maxs: seq<int>, dcs: seq<nat>, c: nat)
    requires c <= |dcs| == |maxs|
    requires forall k :: 0 <= k < |dcs| ==> Placed(vc, maxs, dcs, k)
    requires forall k :: 0 <= k < c ==> Closed(vc, countPerBin, dcs, k)
    ensures Start(dcs, c) <= |vc|
    ensures Total(vc[..Start(dcs, c)]) >= c * countPerBin
  {
    if c == 0 {
      assert dcs[..0] == [];
    } else {
      ClosedBinsHeight(vc, countPerBin, maxs, dcs, c - 1);
      var b := Start(dcs, c - 1);
      var e := Start(dcs, c);
      assert Closed(vc, countPerBin, dcs, c - 1);
      TotalSplit(vc, 0, b, e);
      assert vc[..e] == vc[0..e] && vc[..b] == vc[0..b];
      MulSucc(c - 1, countPerBin);
    }
  }

  /** With positive counts a trailing run is never dropped, so the distinct counts add up to all distinct values. */
  lemma DistinctCountsSumToValues(vc: seq<ValueCount>, countPerBin: nat, maxs: seq<int>, dcs: seq<nat>)
    requires IsEqualHeightBins(vc, countPerBin, maxs, dcs) && PositiveCounts(vc)
    ensures Sum(dcs) == |vc|
  {
  }

  /**
   * The number of bins produced never exceeds the capped request: each closed bin holds at least
   * `count_per_bin` occurrences and a leftover bin at least one more.
   */
  lemma BinsWithinRequest(vc: seq<ValueCount>, maxNumBins: nat, maxs: seq<int>, dcs: seq<nat>)
    requires |vc| > 0 && maxNumBins > 0 && PositiveCounts(vc)
    requires IsEqualHeightBins(vc, CountPerBin(Total(vc), NumBinsFor(|vc|, maxNumBins)), maxs, dcs)
    ensures |dcs| <= NumBinsFor(|vc|, maxNumBins)
  {
    var numBins := NumBinsFor(|vc|, maxNumBins);
    TotalPositive(vc);
    CountPerBinCovers(Total(vc), numBins);
    BinsWithinCover(vc, CountPerBin(Total(vc), numBins), numBins, maxs, dcs);
  }

  /** Bins of height `cpb` over at most `numBins * cpb` occurrences number at most `numBins`. */
  lemma BinsWithinCover(vc: seq<ValueCount>, cpb: nat, numBins: nat, maxs: seq<int>, dcs: seq<nat>)
    requires cpb > 0 && Total(vc) <= numBins * cpb
    requires IsEqualHeightBins(vc, cpb, maxs, dcs)
    ensures |dcs| <= numBins
  {
    if |dcs| > 0 {
      if Closed(vc, cpb, dcs, |dcs| - 1) {
        ClosedWithinCover(vc, cpb, numBins, maxs, dcs);
      } else {
        LeftoverWithinCover(vc, cpb, numBins, maxs, dcs);
      }
    }
  }

  lemma ClosedWithinCover(vc: seq<ValueCount>, cpb: nat, numBins: nat, maxs: seq<int>, dcs: seq<nat>)
    requires cpb > 0 && Total(vc) <= numBins * cpb
    requires IsEqualHeightBins(vc, cpb, maxs, dcs) && |dcs| > 0 && Closed(vc, cpb, dcs, |dcs| - 1)
    ensures |dcs| <= numBins
  {
    var n := |dcs|;
    ClosedBinsHeight(vc, cpb, maxs, dcs, n);
    TotalSplit(vc, 0, Start(dcs, n), |vc|);
    assert vc[..Start(dcs, n)] == vc[0..Start(dcs, n)] && vc == vc[0..|vc|];
    MulCancelLe(n, numBins, cpb);
  }

  lemma LeftoverWithinCover(vc: seq<ValueCount>, cpb: nat, numBins: nat, maxs: seq<int>, dcs: seq<nat>)
    requires cpb > 0 && Total(vc) <= numBins * cpb
    requires IsEqualHeightBins(vc, cpb, maxs, dcs) && |dcs| > 0 && !Closed(vc, cpb, dcs, |dcs| - 1)
    ensures |dcs| <= numBins
  {
    var n := |dcs|;
    ClosedBinsHeight(vc, cpb, maxs, dcs, n - 1);
    TotalSplit(vc, 0, Start(dcs, n - 1), |vc|);
    assert vc[..Start(dcs, n - 1)] == vc[0..Start(dcs, n - 1)] && vc == vc[0..|vc|];
    assert vc[Start(dcs, n - 1)..] == vc[Start(dcs, n - 1)..|vc|];
    MulCancelLt(n - 1, numBins, cpb);
  }

  lemma {:induction false} StartMonotone(vc: seq<ValueCount>, maxs: seq<int>, dcs: seq<nat>, i: nat, j: nat)
    requires i <= j < |dcs| == |maxs|
    requires forall k :: 0 <= k < |dcs| ==> Placed(vc, maxs, dcs, k)
    ensures Start(dcs, i) <= Start(dcs, j)
    decreases j - i
  {
    if i < j {
      assert Placed(vc, maxs, dcs, i);
      StartMonotone(vc, maxs, dcs, i + 1, j);
    }
  }

  /** On sorted input the bin maxima are strictly increasing. */
  lemma MaxsIncreasing(vc: seq<ValueCount>, countPerBin: nat, maxs: seq<int>, dcs: seq<nat>)
    requires IsEqualHeightBins(vc, countPerBin, maxs, dcs) && StrictlySorted(vc)
    ensures Increasing(maxs)
  {
    forall i, j | 0 <= i < j < |maxs| ensures maxs[i] < maxs[j] {
      assert Placed(vc, maxs, dcs, i) && Placed(vc, maxs, dcs, j);
      StartMonotone(vc, maxs, dcs, i + 1, j);
    }
  }

  // -------------------------------------------------------------------------------------------------
  // Lookups

  function NumBins(h: Histogram): nat { |h.maxs| }

  /** `_bin_min(index)`: `_min` for the first bin, otherwise the successor of the previous bin's max. */
  function BinMin(h: Histogram, index: nat): int
    requires index < |h.maxs|
  {
    if index == 0 then h.min else h.maxs[index - 1] + 1
  }

  function BinMax(h: Histogram, index: nat): int
    requires index < |h.maxs|
  {
    h.maxs[index]
  }

  /** `_bin_count(index)`: every bin reports ceil(total_count / num_bins). */
  function BinCount(h: Histogram, index: nat): (r: nat)
    requires index < |h.maxs|
    ensures h.totalCount <= NumBins(h) * r
  {
    CountPerBinCovers(h.totalCount, NumBins(h));
    CountPerBin(h.totalCount, NumBins(h))
  }

  function BinCountDistinct(h: Histogram, index: nat): nat
    requires index < |h.distinctCounts|
  {
    h.distinctCounts[index]
  }

  function TotalCount(h: Histogram): nat { h.totalCount }

  /** `total_count_distinct()`: the sum of the distinct counts. */
  function TotalCountDistinct(h: Histogram): nat { Sum(h.distinctCounts) }

  /** `_bin_for_value(value)`: INVALID below `_min` or above the last max, else the lower bound into `maxs`. */
  function BinForValue(h: Histogram, value: int): (r: Option<nat>)
    ensures r.Some? ==> r.value < |h.maxs| && value <= h.maxs[r.value]
  {
    if value < h.min then None
    else
      var index := LowerBound(h.maxs, value);
      if index == |h.maxs| then None else Some(index)
  }

  /** `_upper_bound_for_value(value)`: the first bin whose max is greater than the value. */
  function UpperBoundForValue(h: Histogram, value: int): (r: Option<nat>)
    ensures r.Some? ==> r.value < |h.maxs| && h.maxs[r.value] > value
    ensures r.Some? ==> forall k :: 0 <= k < r.value ==> h.maxs[k] <= value
    ensures r.None? <==> forall k :: 0 <= k < |h.maxs| ==> h.maxs[k] <= value
  {
    var index := UpperBound(h.maxs, value);
    if index == |h.maxs| then None else Some(index)
  }

  /** Bins of a valid histogram: the minimum is not above the first max and the maxima increase. */
  predicate WellFormed(h: Histogram)
  {
    |h.maxs| == |h.distinctCounts| && |h.maxs| > 0 && h.min <= h.maxs[0] && Increasing(h.maxs)
  }

  /** Bins built from sorted input are well formed. */
  lemma StatsAreWellFormed(vc: seq<ValueCount>, maxNumBins: nat, h: Histogram)
    requires |vc| > 0 && maxNumBins > 0 && StrictlySorted(vc) && PositiveCounts(vc)
    requires h.min == vc[0].0
    requires IsEqualHeightBins(vc, CountPerBin(Total(vc), NumBinsFor(|vc|, maxNumBins)), h.maxs, h.distinctCounts)
    ensures WellFormed(h)
  {
    var cpb := CountPerBin(Total(vc), NumBinsFor(|vc|, maxNumBins));
    MaxsIncreasing(vc, cpb, h.maxs, h.distinctCounts);
    DistinctCountsSumToValues(vc, cpb, h.maxs, h.distinctCounts);
    assert Placed(vc, h.maxs, h.distinctCounts, 0);
  }

  /** The bins of a well-formed histogram tile [_min, last max]: a value has bin i exactly when it lies in it. */
  lemma BinForValueIffInBin(h: Histogram, value: int, i: nat)
    requires WellFormed(h) && i < |h.maxs|
    ensures BinForValue(h, value) == Some(i) <==> BinMin(h, i) <= value <= BinMax(h, i)
  {
  }

  /** A value has no bin exactly when it is below `_min` or above the last max. */
  lemma BinForValueNone(h: Histogram, value: int)
    requires WellFormed(h)
    ensures BinForValue(h, value).None? <==> value < h.min || value > h.maxs[|h.maxs| - 1]
  {
  }
}
