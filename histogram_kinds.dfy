/**
 * The three histogram kinds behind `AbstractHistogram<T>`'s virtual accessors. `View` is what
 * `_bin_min`, `_bin_max`, `_bin_count`, `_bin_count_distinct`, `total_count` and `total_count_distinct`
 * of each kind return; the lemmas show that the bins of every kind form the ordered, non-overlapping
 * ranges the shared estimators rely on, that each kind's `_bin_for_value` is the shared one on its view,
 * and that the bins built from a sorted `value_counts` account for every value it holds.
 */
module HistogramKinds {
  import opened Wrappers
  import opened HistogramCommon
  import opened Arithmetic
  import A = AbstractHistogram
  import AP = AbstractHistogramProperties
  import ENE = EqualNumElementsHistogram
  import EH = EqualHeightHistogram
  import EW = EqualWidthHistogram

  datatype Histogram =
    | EqualNumElements(ene: ENE.Histogram)
    | EqualHeight(eh: EH.Histogram)
    | EqualWidth(ew: EW.Histogram)

  predicate WellFormed(h: Histogram)
  {
    match h
    case EqualNumElements(e) => ENE.WellFormed(e) && |e.mins| > 0
    case EqualHeight(e) => EH.WellFormed(e)
    case EqualWidth(e) => EW.WellFormed(e)
  }

  function EqualNumElementsView(e: ENE.Histogram): A.Bins
  {
    A.Bins(e.mins, e.maxs, e.counts, seq(|e.counts|, i requires 0 <= i < |e.counts| => ENE.BinCountDistinct(e, i)),
           ENE.TotalCount(e), ENE.TotalCountDistinct(e))
  }

  function EqualHeightView(e: EH.Histogram): A.Bins
  {
    A.Bins(seq(|e.maxs|, i requires 0 <= i < |e.maxs| => EH.BinMin(e, i)), e.maxs,
           seq(|e.maxs|, i requires 0 <= i < |e.maxs| => EH.BinCount(e, i)), e.distinctCounts,
           EH.TotalCount(e), EH.TotalCountDistinct(e))
  }

  function EqualWidthView(e: EW.Histogram): A.Bins
    requires EW.WellFormed(e)
  {
    A.Bins(seq(|e.counts|, i requires 0 <= i < |e.counts| => EW.BinMin(e, i)),
           seq(|e.counts|, i requires 0 <= i < |e.counts| => EW.BinMax(e, i)),
           e.counts, e.distinctCounts, EW.TotalCount(e), EW.TotalCountDistinct(e))
  }

  /** The bins as the accessors of the histogram's kind present them. */
  function View(h: Histogram): A.Bins
    requires WellFormed(h)
  {
    match h
    case EqualNumElements(e) => EqualNumElementsView(e)
    case EqualHeight(e) => EqualHeightView(e)
    case EqualWidth(e) => EqualWidthView(e)
  }

  /** The kind's own `_bin_for_value`. */
  function BinForValue(h: Histogram, value: int): Option<nat>
    requires WellFormed(h)
  {
    match h
    case EqualNumElements(e) => ENE.BinForValue(e, value)
    case EqualHeight(e) => EH.BinForValue(e, value)
    case EqualWidth(e) => EW.BinForValue(e, value)
  }

  /** The kind's own `_upper_bound_for_value`. */
  function UpperBoundForValue(h: Histogram, value: int): Option<nat>
    requires WellFormed(h)
  {
    match h
    case EqualNumElements(e) => ENE.UpperBoundForValue(e, value)
    case EqualHeight(e) => EH.UpperBoundForValue(e, value)
    case EqualWidth(e) => EW.UpperBoundForValue(e, value)
  }

  // -------------------------------------------------------------------------------------------------
  // Every kind presents ordered, non-overlapping bins

  lemma EqualNumElementsViewWellFormed(e: ENE.Histogram)
    requires ENE.WellFormed(e) && |e.mins| > 0
    ensures A.WellFormed(EqualNumElementsView(e))
  {
    var v := EqualNumElementsView(e);
    assert v.mins == e.mins && v.maxs == e.maxs && |v.distinctCounts| == |e.counts|;
    forall i, j | 0 <= i < j < |e.mins| ensures e.maxs[i] < e.mins[j] {
      ENE.MaxsIncreasingFrom(e, i, j);
    }
  }

  lemma EqualHeightViewWellFormed(e: EH.Histogram)
    requires EH.WellFormed(e)
    ensures A.WellFormed(EqualHeightView(e))
  {
    var v := EqualHeightView(e);
    assert v.maxs == e.maxs && |v.mins| == |v.counts| == |e.maxs|;
    forall i | 0 <= i < |v.mins| ensures v.mins[i] <= v.maxs[i] {
      assert v.mins[i] == EH.BinMin(e, i);
      if i > 0 {
        assert e.maxs[i - 1] < e.maxs[i];
      }
    }
    forall i, j | 0 <= i < j < |v.mins| ensures v.maxs[i] < v.mins[j] {
      assert v.mins[j] == e.maxs[j - 1] + 1;
      if i < j - 1 {
        assert e.maxs[i] < e.maxs[j - 1];
      }
    }
  }

  lemma EqualWidthViewWellFormed(e: EW.Histogram)
    requires EW.WellFormed(e)
    ensures A.WellFormed(EqualWidthView(e))
  {
    var v := EqualWidthView(e);
    EW.BinWidthPositive(e);
    forall i | 0 <= i < |v.mins| ensures v.mins[i] <= v.maxs[i] {
      EW.BinMaxIsNextBeginMinusOne(e, i);
    }
    forall i, j | 0 <= i < j < |v.mins| ensures v.maxs[i] < v.mins[j] {
      EW.BinMaxIsNextBeginMinusOne(e, i);
      EW.BinBeginMonotone(e.min, EW.CommonWidth(e), e.numBinsWithLargerRange, i + 1, j);
    }
  }

  /** Whatever its kind, a well-formed histogram presents well-formed bins to the shared estimators. */
  lemma ViewWellFormed(h: Histogram)
    requires WellFormed(h)
    ensures A.WellFormed(View(h))
    ensures A.NumBins(View(h)) == (match h
      case EqualNumElements(e) => ENE.NumBins(e)
      case EqualHeight(e) => EH.NumBins(e)
      case EqualWidth(e) => EW.NumBins(e))
  {
    match h
    case EqualNumElements(e) => EqualNumElementsViewWellFormed(e);
    case EqualHeight(e) => EqualHeightViewWellFormed(e);
    case EqualWidth(e) => EqualWidthViewWellFormed(e);
  }

  // -------------------------------------------------------------------------------------------------
  // The kinds' lookups agree with the shared ones

  /** Each kind's `_bin_for_value` is the shared lookup on its view. */
  lemma ViewBinForValue(h: Histogram, value: int)
    requires WellFormed(h)
    ensures A.WellFormed(View(h))
    ensures BinForValue(h, value) == A.BinForValue(View(h), value)
  {
    ViewWellFormed(h);
    var v := View(h);
    var shared := A.BinForValue(v, value);
    match h
    case EqualNumElements(e) =>
      ENE.BinForValueIffInBin(e, value);
      if shared.Some? {
        A.BinForValueIffInBin(v, value, shared.value);
      }
    case EqualHeight(e) =>
      var own := EH.BinForValue(e, value);
      if own.Some? {
        EH.BinForValueIffInBin(e, value, own.value);
        A.BinForValueIffInBin(v, value, own.value);
      } else if shared.Some? {
        EH.BinForValueIffInBin(e, value, shared.value);
      }
    case EqualWidth(e) =>
      var own := EW.BinForValue(e, value);
      if own.Some? {
        EW.BinForValueIffInBin(e, value, own.value);
        A.BinForValueIffInBin(v, value, own.value);
      } else if shared.Some? {
        EW.BinForValueIffInBin(e, value, shared.value);
      }
  }

  /**
   * `_upper_bound_for_value` of the equal-num-elements and equal-height kinds is the shared one. The
   * equal-width one differs inside the bins, but the estimators consult it only for values no bin
   * holds, and there it agrees as well.
   */
  lemma ViewUpperBoundForValue(h: Histogram, value: int)
    requires WellFormed(h)
    ensures A.WellFormed(View(h))
    ensures !h.EqualWidth? || A.BinForValue(View(h), value).None? ==>
      UpperBoundForValue(h, value) == A.UpperBoundForValue(View(h), value)
  {
    ViewWellFormed(h);
    var v := View(h);
    match h
    case EqualNumElements(e) =>
    case EqualHeight(e) =>
    case EqualWidth(e) =>
      if A.BinForValue(v, value).None? {
        ViewBinForValue(h, value);
        EW.BinWidthPositive(e);
        if value < e.min {
          assert v.mins[0] == e.min;
        } else {
          assert value > e.max;
          forall k | 0 <= k < A.NumBins(v) ensures A.BinMax(v, k) <= value {
            A.BinWithinRange(v, k);
          }
        }
      }
  }

  // -------------------------------------------------------------------------------------------------
  // Bins built from sorted input account for every value

  /** Where position j of `value_counts` falls among the runs of an equal-num-elements histogram. */
  lemma {:induction false} EqualNumElementsRunOf(j: nat, numBins: nat, perBin: nat, extra: nat) returns (i: nat)
    requires j < ENE.BinBegin(numBins, perBin, extra)
    ensures i < numBins && ENE.BinBegin(i, perBin, extra) <= j < ENE.BinBegin(i + 1, perBin, extra)
    decreases numBins
  {
    assert numBins > 0;
    if ENE.BinBegin(numBins - 1, perBin, extra) <= j {
      i := numBins - 1;
    } else {
      i := EqualNumElementsRunOf(j, numBins - 1, perBin, extra);
    }
  }

  /** Bins built by `_get_bin_stats` report no more in a bin than in total, and a distinct value for every nonempty bin. */
  lemma EqualNumElementsConsistent(vc: seq<ValueCount>, maxNumBins: nat, e: ENE.Histogram)
    requires |vc| > 0 && maxNumBins > 0 && StrictlySorted(vc) && ENE.IsBinStatsOf(vc, maxNumBins, e)
    ensures ENE.WellFormed(e) && |e.mins| > 0
    ensures A.WellFormed(EqualNumElementsView(e)) && AP.Consistent(EqualNumElementsView(e))
  {
    ENE.BinsCoverValues(|vc|, maxNumBins);
    ENE.StatsAreWellFormed(vc, maxNumBins, e);
    EqualNumElementsViewWellFormed(e);
    forall i | 0 <= i < |e.counts| ensures e.counts[i] <= Sum(e.counts) {
      SumAtLeastElement(e.counts, i);
    }
  }

  /** Every value of `value_counts` lies in a nonempty bin of the equal-num-elements histogram built from it. */
  lemma EqualNumElementsCovers(vc: seq<ValueCount>, maxNumBins: nat, e: ENE.Histogram)
    requires |vc| > 0 && maxNumBins > 0 && StrictlySorted(vc) && PositiveCounts(vc)
    requires ENE.IsBinStatsOf(vc, maxNumBins, e)
    ensures ENE.WellFormed(e) && |e.mins| > 0
    ensures A.WellFormed(EqualNumElementsView(e)) && A.Covers(EqualNumElementsView(e), vc)
  {
    EqualNumElementsConsistent(vc, maxNumBins, e);
    var v := EqualNumElementsView(e);
    forall j | 0 <= j < |vc| ensures A.Occurs(v, vc[j].0) {
      EqualNumElementsValueOccurs(vc, maxNumBins, e, j);
    }
  }

  lemma EqualNumElementsValueOccurs(vc: seq<ValueCount>, maxNumBins: nat, e: ENE.Histogram, j: nat)
    requires |vc| > 0 && maxNumBins > 0 && StrictlySorted(vc) && PositiveCounts(vc) && j < |vc|
    requires ENE.IsBinStatsOf(vc, maxNumBins, e) && A.WellFormed(EqualNumElementsView(e))
    ensures A.Occurs(EqualNumElementsView(e), vc[j].0)
  {
    var i := EqualNumElementsBinOf(vc, maxNumBins, e, j);
    A.BinForValueIffInBin(EqualNumElementsView(e), vc[j].0, i);
  }

  /** The bin whose run holds position j holds its value and has a positive count. */
  lemma EqualNumElementsBinOf(vc: seq<ValueCount>, maxNumBins: nat, e: ENE.Histogram, j: nat) returns (i: nat)
    requires |vc| > 0 && maxNumBins > 0 && StrictlySorted(vc) && PositiveCounts(vc) && j < |vc|
    requires ENE.IsBinStatsOf(vc, maxNumBins, e)
    ensures i < |e.mins| == |e.maxs| == |e.counts| && e.mins[i] <= vc[j].0 <= e.maxs[i] && e.counts[i] > 0
  {
    var numBins := ENE.NumBinsFor(|vc|, maxNumBins);
    var perBin, extra := e.distinctCountPerBin, e.numBinsWithExtraValue;
    i := EqualNumElementsRunOf(j, numBins, perBin, extra);
    assert ENE.BinIs(vc, perBin, extra, i, e.mins[i], e.maxs[i], e.counts[i]);
    var b, end := ENE.BinBegin(i, perBin, extra), ENE.BinBegin(i + 1, perBin, extra);
    assert vc[b].0 <= vc[j].0 <= vc[end - 1].0;
    TotalAtLeastEntry(vc, b, j, end);
  }

  /** `ceil(total / num_bins)` never exceeds the total. */
  lemma CountPerBinAtMostTotal(total: nat, numBins: nat)
    requires numBins > 0
    ensures EH.CountPerBin(total, numBins) <= total
  {
    DivModIdentity(total, numBins);
    MulMonotone(1, numBins, total / numBins);
  }

  /** The distinct count of every equal-height bin is the positive length of its run. */
  lemma EqualHeightDistinctPositive(vc: seq<ValueCount>, e: EH.Histogram, k: nat)
    requires |e.maxs| == |e.distinctCounts| && k < |e.distinctCounts|
    requires EH.Placed(vc, e.maxs, e.distinctCounts, k)
    ensures e.distinctCounts[k] > 0
  {
    var dcs := e.distinctCounts;
    assert dcs[..k + 1][..k] == dcs[..k];
  }

  /** The equal-height bins `_get_bin_stats` builds are consistent and hold every value of `value_counts`. */
  lemma EqualHeightCovers(vc: seq<ValueCount>, maxNumBins: nat, e: EH.Histogram)
    requires |vc| > 0 && maxNumBins > 0 && StrictlySorted(vc) && PositiveCounts(vc)
    requires e.min == vc[0].0 && e.totalCount == Total(vc)
    requires EH.IsEqualHeightBins(vc, EH.CountPerBin(Total(vc), EH.NumBinsFor(|vc|, maxNumBins)), e.maxs, e.distinctCounts)
    ensures EH.WellFormed(e)
    ensures A.WellFormed(EqualHeightView(e)) && AP.Consistent(EqualHeightView(e))
    ensures A.Covers(EqualHeightView(e), vc)
  {
    EH.StatsAreWellFormed(vc, maxNumBins, e);
    EqualHeightDistinctsPositive(vc, maxNumBins, e);
    EqualHeightConsistent(e);
    EqualHeightLastMax(vc, maxNumBins, e);
    TotalPositive(vc);
    forall j | 0 <= j < |vc| ensures A.Occurs(EqualHeightView(e), vc[j].0) {
      assert vc[0].0 <= vc[j].0 <= vc[|vc| - 1].0;
      EqualHeightValueOccurs(e, vc[j].0);
    }
  }

  lemma EqualHeightDistinctsPositive(vc: seq<ValueCount>, maxNumBins: nat, e: EH.Histogram)
    requires maxNumBins > 0 && |vc| > 0
    requires EH.IsEqualHeightBins(vc, EH.CountPerBin(Total(vc), EH.NumBinsFor(|vc|, maxNumBins)), e.maxs, e.distinctCounts)
    ensures forall k :: 0 <= k < |e.distinctCounts| ==> e.distinctCounts[k] > 0
  {
    forall k | 0 <= k < |e.distinctCounts| ensures e.distinctCounts[k] > 0 {
      EqualHeightDistinctPositive(vc, e, k);
    }
  }

  /** Every equal-height bin reports at most the total, and a nonempty bin has a distinct value. */
  lemma EqualHeightConsistent(e: EH.Histogram)
    requires EH.WellFormed(e) && forall k :: 0 <= k < |e.distinctCounts| ==> e.distinctCounts[k] > 0
    ensures A.WellFormed(EqualHeightView(e)) && AP.Consistent(EqualHeightView(e))
  {
    EqualHeightViewWellFormed(e);
    CountPerBinAtMostTotal(e.totalCount, |e.maxs|);
  }

  /** The last equal-height bin ends at the largest value. */
  lemma EqualHeightLastMax(vc: seq<ValueCount>, maxNumBins: nat, e: EH.Histogram)
    requires |vc| > 0 && maxNumBins > 0 && PositiveCounts(vc) && |e.maxs| > 0
    requires EH.IsEqualHeightBins(vc, EH.CountPerBin(Total(vc), EH.NumBinsFor(|vc|, maxNumBins)), e.maxs, e.distinctCounts)
    ensures e.maxs[|e.maxs| - 1] == vc[|vc| - 1].0
  {
    EH.DistinctCountsSumToValues(vc, EH.CountPerBin(Total(vc), EH.NumBinsFor(|vc|, maxNumBins)), e.maxs, e.distinctCounts);
    assert EH.Placed(vc, e.maxs, e.distinctCounts, |e.maxs| - 1);
  }

  /** With a positive total, every value in [_min, last max] lies in a nonempty equal-height bin. */
  lemma EqualHeightValueOccurs(e: EH.Histogram, x: int)
    requires EH.WellFormed(e) && e.totalCount > 0 && e.min <= x <= e.maxs[|e.maxs| - 1]
    ensures A.WellFormed(EqualHeightView(e)) && A.Occurs(EqualHeightView(e), x)
  {
    EH.BinForValueNone(e, x);
    ViewBinForValue(EqualHeight(e), x);
    EH.CountPerBinCovers(e.totalCount, |e.maxs|);
  }

  /** The equal-width bins of sorted input are consistent and hold every value of `value_counts`. */
  lemma EqualWidthCovers(vc: seq<ValueCount>, e: EW.Histogram)
    requires StrictlySorted(vc) && PositiveCounts(vc)
    requires EW.WellFormed(e) && EW.IsBinStatsWith(vc, |e.counts|, e)
    ensures A.WellFormed(EqualWidthView(e)) && AP.Consistent(EqualWidthView(e))
    ensures A.Covers(EqualWidthView(e), vc)
  {
    EqualWidthViewWellFormed(e);
    var v := EqualWidthView(e);
    var n := |e.counts|;
    var bw, extra := EW.CommonWidth(e), e.numBinsWithLargerRange;
    forall i | 0 <= i < n ensures e.counts[i] <= Sum(e.counts) && (e.counts[i] > 0 ==> e.distinctCounts[i] > 0) {
      SumAtLeastElement(e.counts, i);
      assert EW.BinHolds(vc, e.min, bw, extra, e.counts, e.distinctCounts, i);
    }
    forall j | 0 <= j < |vc| ensures A.Occurs(v, vc[j].0) {
      var i := EW.EveryValueInOneBin(vc, n, e, j);
      EW.PositionInBinIffValueInRange(vc, n, e, j, i);
      EW.BinMaxIsNextBeginMinusOne(e, i);
      assert EW.BinHolds(vc, e.min, bw, extra, e.counts, e.distinctCounts, i);
      TotalAtLeastEntry(vc, EW.BinStart(vc, e.min, bw, extra, i), j, EW.BinStart(vc, e.min, bw, extra, i + 1));
      A.BinForValueIffInBin(v, vc[j].0, i);
    }
  }

  // -------------------------------------------------------------------------------------------------
  // The equal-width LessThan estimates with `_bin_min` as written

  /** `_bin_share(index, value)` of an equal-width histogram as written: measured from `_bin_min` as written. */
  function EqualWidthShareAsWritten(e: EW.Histogram, index: nat, value: int): real
    requires EW.WellFormed(e) && index < EW.NumBins(e)
  {
    EW.BinWidthPositive(e);
    (value - EW.BinMinAsWritten(e, index)) as real / EW.BinWidth(e, index) as real
  }

  /** The share as written falls short of the share in the view by index / width in the wider bins after the first. */
  lemma EqualWidthShareOffset(e: EW.Histogram, index: nat, value: int)
    requires EW.WellFormed(e) && index < EW.NumBins(e)
    ensures A.WellFormed(EqualWidthView(e))
    ensures var w := EW.BinWidth(e, index) as real;
      EqualWidthShareAsWritten(e, index, value)
        == A.Share(EqualWidthView(e), index, value) - (if index < e.numBinsWithLargerRange then index as real / w else 0.0)
  {
    EqualWidthViewWellFormed(e);
    EW.BinWidthPositive(e);
    EW.BinMinAsWrittenOffset(e, index);
    EW.BinMaxIsNextBeginMinusOne(e, index);
    var v := EqualWidthView(e);
    assert A.BinWidth(v, index) == EW.BinWidth(e, index);
  }

  /**
   * The LessThan case of `estimate_cardinality` on an equal-width histogram as written: `max()` and
   * `min()` are `_max` and `_min`, the kind's own `_bin_for_value` finds the bin (it always finds one in
   * [_min, _max]), and `_bin_share` is measured from `_bin_min` as written.
   */
  function EqualWidthLessThanAsWritten(e: EW.Histogram, value: int): Result<real>
    requires EW.WellFormed(e)
  {
    EqualWidthViewWellFormed(e);
    var v := EqualWidthView(e);
    if value > e.max then Success(A.TotalCount(v) as real)
    else if value < e.min then Failure("Value smaller than min of histogram.")
    else
      match EW.BinForValue(e, value)
      case Some(i) =>
        Success(A.RealMin(Scaled(EqualWidthShareAsWritten(e, i, value), A.BinCount(v, i)) + A.CountsBefore(v, i) as real,
                          A.TotalCount(v) as real))
      case None => assert false; Failure("Bin index out of range.")
  }

  /** `_bin_share(index, value) * count`. */
  function Scaled(share: real, count: nat): real
  {
    share * count as real
  }

  /** The LessThan case of `estimate_distinct_count` on an equal-width histogram as written. */
  function EqualWidthDistinctLessThanAsWritten(e: EW.Histogram, value: int): Result<real>
    requires EW.WellFormed(e)
  {
    EqualWidthViewWellFormed(e);
    var v := EqualWidthView(e);
    if value > e.max then Success(A.TotalCountDistinct(v) as real)
    else if value < e.min then
      match EW.UpperBoundForValue(e, value)
      case None => assert false; Failure("Bin index out of range.")
      case Some(u) => Success(A.DistinctCountsBefore(v, u) as real)
    else
      match EW.BinForValue(e, value)
      case Some(i) =>
        Success(Scaled(EqualWidthShareAsWritten(e, i, value), A.BinCountDistinct(v, i)) + A.DistinctCountsBefore(v, i) as real)
      case None => assert false; Failure("Bin index out of range.")
  }

  /**
   * With `_bin_min` as written, the LessThan estimate of an equal-width histogram succeeds exactly when
   * the one on the laid-out bins does, is never above it, and equals it unless the value lies in a wider
   * bin other than the first.
   */
  lemma EqualWidthLessThanAsWrittenAgrees(e: EW.Histogram, value: int)
    requires EW.WellFormed(e)
    ensures A.WellFormed(EqualWidthView(e))
    ensures var asWritten, laidOut := EqualWidthLessThanAsWritten(e, value), A.LessThanCardinality(EqualWidthView(e), value);
      && (asWritten.Success? <==> laidOut.Success?)
      && (asWritten.Success? ==> asWritten.value <= laidOut.value)
      && ((match EW.BinForValue(e, value) case None => true case Some(i) => i == 0 || i >= e.numBinsWithLargerRange) ==> asWritten == laidOut)
  {
    EqualWidthViewWellFormed(e);
    var v := EqualWidthView(e);
    EqualWidthBounds(e);
    if e.min <= value <= e.max {
      ViewBinForValue(EqualWidth(e), value);
      var i := EW.BinForValue(e, value).value;
      assert A.BinForValue(v, value) == Some(i);
      var c := A.BinCount(v, i);
      var cb, t := A.CountsBefore(v, i) as real, A.TotalCount(v) as real;
      var pw, pv := Scaled(EqualWidthShareAsWritten(e, i, value), c), A.PartOfBin(v, i, value, c);
      assert EqualWidthLessThanAsWritten(e, value) == Success(A.RealMin(pw + cb, t));
      assert A.LessThanCardinality(v, value) == Success(A.RealMin(pv + cb, t));
      PartAsWrittenBelow(e, i, value, c);
    }
  }

  /** The same for the LessThan estimate of the distinct count. */
  lemma EqualWidthDistinctLessThanAsWrittenAgrees(e: EW.Histogram, value: int)
    requires EW.WellFormed(e)
    ensures A.WellFormed(EqualWidthView(e))
    ensures var asWritten, laidOut := EqualWidthDistinctLessThanAsWritten(e, value), A.DistinctLessThan(EqualWidthView(e), value);
      && (asWritten.Success? <==> laidOut.Success?)
      && (asWritten.Success? ==> asWritten.value <= laidOut.value)
      && ((match EW.BinForValue(e, value) case None => true case Some(i) => i == 0 || i >= e.numBinsWithLargerRange) ==> asWritten == laidOut)
  {
    EqualWidthViewWellFormed(e);
    var v := EqualWidthView(e);
    EqualWidthBounds(e);
    ViewBinForValue(EqualWidth(e), value);
    if value < e.min {
      ViewUpperBoundForValue(EqualWidth(e), value);
    } else if value <= e.max {
      DistinctAsWrittenInBin(e, value);
    }
  }

  /** Inside [min, max] both estimates add the distinct counts before the value's bin to a part of it. */
  lemma DistinctAsWrittenInBin(e: EW.Histogram, value: int)
    requires EW.WellFormed(e) && A.WellFormed(EqualWidthView(e)) && e.min <= value <= e.max
    ensures var asWritten, laidOut := EqualWidthDistinctLessThanAsWritten(e, value), A.DistinctLessThan(EqualWidthView(e), value);
      && asWritten.Success? && laidOut.Success?
      && asWritten.value <= laidOut.value
      && (var i := EW.BinForValue(e, value).value; i == 0 || i >= e.numBinsWithLargerRange ==> asWritten == laidOut)
  {
    var v := EqualWidthView(e);
    EqualWidthBounds(e);
    ViewBinForValue(EqualWidth(e), value);
    var i := EW.BinForValue(e, value).value;
    assert A.BinForValue(v, value) == Some(i);
    var c := A.BinCountDistinct(v, i);
    var cb := A.DistinctCountsBefore(v, i) as real;
    assert EqualWidthDistinctLessThanAsWritten(e, value) == Success(Scaled(EqualWidthShareAsWritten(e, i, value), c) + cb);
    assert A.DistinctLessThan(v, value) == Success(A.PartOfBin(v, i, value, c) + cb);
    PartAsWrittenBelow(e, i, value, c);
  }

  /** `min()` and `max()` of the view are `_min` and `_max`. */
  lemma EqualWidthBounds(e: EW.Histogram)
    requires EW.WellFormed(e)
    ensures A.WellFormed(EqualWidthView(e))
    ensures A.Min(EqualWidthView(e)) == e.min && A.Max(EqualWidthView(e)) == e.max
  {
    EqualWidthViewWellFormed(e);
  }

  /** The share as written is never above the laid-out one, and equal outside the wider bins after the first. */
  lemma ShareAsWrittenBelow(e: EW.Histogram, index: nat, value: int)
    requires EW.WellFormed(e) && index < EW.NumBins(e)
    ensures A.WellFormed(EqualWidthView(e))
    ensures EqualWidthShareAsWritten(e, index, value) <= A.Share(EqualWidthView(e), index, value)
    ensures index == 0 || index >= e.numBinsWithLargerRange ==>
      EqualWidthShareAsWritten(e, index, value) == A.Share(EqualWidthView(e), index, value)
  {
    EqualWidthShareOffset(e, index, value);
    EW.BinWidthPositive(e);
    NonnegativeQuotient(index as real, EW.BinWidth(e, index) as real);
  }

  /** The part of a bin's count below the value, as written, is never above the laid-out one. */
  lemma PartAsWrittenBelow(e: EW.Histogram, index: nat, value: int, count: nat)
    requires EW.WellFormed(e) && index < EW.NumBins(e)
    ensures A.WellFormed(EqualWidthView(e))
    ensures Scaled(EqualWidthShareAsWritten(e, index, value), count) <= A.PartOfBin(EqualWidthView(e), index, value, count)
    ensures index == 0 || index >= e.numBinsWithLargerRange ==>
      Scaled(EqualWidthShareAsWritten(e, index, value), count) == A.PartOfBin(EqualWidthView(e), index, value, count)
  {
    ShareAsWrittenBelow(e, index, value);
    ShareTimesCount(EqualWidthShareAsWritten(e, index, value), A.Share(EqualWidthView(e), index, value), count as real);
  }

  /** A share no larger than another, scaled by the same nonnegative count, stays no larger. */
  lemma ShareTimesCount(a: real, b: real, c: real)
    requires a <= b && c >= 0.0
    ensures a * c <= b * c
  {
  }

  lemma NonnegativeQuotient(a: real, w: real)
    requires a >= 0.0 && w > 0.0
    ensures a / w >= 0.0
  {
  }

  /**
   * Values 0..9 in four bins of 3, 3, 2 and 2 rows: the bins are [0, 2], [3, 5], [6, 7], [8, 9]. For
   * x < 4 the laid-out bins give 3 + 1/3 * 3 = 4 rows; `_bin_min(1)` as written is 4, so the source's
   * share of bin 1 is 0 and its estimate is 3.
   */
  lemma EqualWidthAsWrittenExample()
    ensures var e := EW.Histogram(0, 9, [3, 3, 2, 2], [3, 3, 2, 2], 2);
      && EW.WellFormed(e) && A.WellFormed(EqualWidthView(e))
      && EqualWidthLessThanAsWritten(e, 4) == Success(3.0)
      && A.LessThanCardinality(EqualWidthView(e), 4) == Success(4.0)
  {
    var e := EW.Histogram(0, 9, [3, 3, 2, 2], [3, 3, 2, 2], 2);
    EqualWidthViewWellFormed(e);
    var v := EqualWidthView(e);
    EW.BinMinAsWrittenExample();
    assert EW.BinMinAsWritten(e, 1) == 4;
    assert v.mins[1] == 3 && v.maxs[1] == 5 && v.maxs[0] == 2 && v.mins[0] == 0 && v.maxs[3] == 9;
    assert EW.BinForValue(e, 4) == Some(1);
    A.BinForValueIffInBin(v, 4, 1);
    assert A.CountsBefore(v, 1) == 3;
  }
}
