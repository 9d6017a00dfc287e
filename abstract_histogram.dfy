/**
 * What `AbstractHistogram<T>` computes for numeric T from the bins its subclasses expose: chunk
 * pruning (`can_prune`), cardinality estimation (`estimate_cardinality`, `estimate_selectivity`) and
 * distinct-count estimation (`estimate_distinct_count`). The estimators reach the bins only through
 * the virtual accessors `_bin_min`, `_bin_max`, `_bin_count`, `_bin_count_distinct`, `total_count` and
 * `total_count_distinct`; `Bins` holds what those accessors return for each bin, and HistogramKinds
 * derives it from each of the three histogram kinds. The string specialisations live in StringHistogram.
 */
module AbstractHistogram {
  import opened Wrappers
  import opened HistogramCommon

  /** The predicate kinds a scan can ask a histogram about. */
  datatype PredicateCondition =
    | Equals | NotEquals | LessThan | LessThanEquals | GreaterThan | GreaterThanEquals
    | Between | Like | NotLike | In | IsNull | IsNotNull

  /** The bins of a histogram as its accessors present them: bin i is [mins[i], maxs[i]]. */
  datatype Bins = Bins(
    mins: seq<int>,
    maxs: seq<int>,
    counts: seq<nat>,
    distinctCounts: seq<nat>,
    totalCount: nat,
    totalCountDistinct: nat)

  /** At least one bin; every bin is a nonempty interval lying below all later ones. */
  predicate WellFormed(h: Bins)
  {
    0 < |h.mins| && |h.mins| == |h.maxs| == |h.counts| == |h.distinctCounts| &&
    (forall i :: 0 <= i < |h.mins| ==> h.mins[i] <= h.maxs[i]) &&
    (forall i, j :: 0 <= i < j < |h.mins| ==> h.maxs[i] < h.mins[j])
  }

  // -------------------------------------------------------------------------------------------------
  // Bin lookups

  function NumBins(h: Bins): nat { |h.mins| }

  function BinMin(h: Bins, index: nat): int
    requires WellFormed(h) && index < NumBins(h)
  {
    h.mins[index]
  }

  function BinMax(h: Bins, index: nat): int
    requires WellFormed(h) && index < NumBins(h)
  {
    h.maxs[index]
  }

  function BinCount(h: Bins, index: nat): nat
    requires WellFormed(h) && index < NumBins(h)
  {
    h.counts[index]
  }

  function BinCountDistinct(h: Bins, index: nat): nat
    requires WellFormed(h) && index < NumBins(h)
  {
    h.distinctCounts[index]
  }

  function TotalCount(h: Bins): nat { h.totalCount }

  function TotalCountDistinct(h: Bins): nat { h.totalCountDistinct }

  /** `min()`: the min of the first bin. */
  function Min(h: Bins): int
    requires WellFormed(h)
  {
    BinMin(h, 0)
  }

  /** `max()`: the max of the last bin. */
  function Max(h: Bins): int
    requires WellFormed(h)
  {
    BinMax(h, NumBins(h) - 1)
  }

  /** `_bin_width`: the number of values a bin spans, `next_value(max - min)`. */
  function BinWidth(h: Bins, index: nat): (r: int)
    requires WellFormed(h) && index < NumBins(h)
    ensures r >= 1
  {
    BinMax(h, index) - BinMin(h, index) + 1
  }

  /**
   * `_bin_for_value`: the first bin whose max is not below the value, provided the value lies in it;
   * None stands for INVALID_BIN_ID.
   */
  function BinForValue(h: Bins, value: int): (r: Option<nat>)
    requires WellFormed(h)
    ensures r.Some? ==> r.value < NumBins(h) && BinMin(h, r.value) <= value <= BinMax(h, r.value)
  {
    var index := LowerBound(h.maxs, value);
    if index == |h.maxs| || value < h.mins[index] then None else Some(index)
  }

  /** `_upper_bound_for_value`: the first bin whose max is greater than the value. */
  function UpperBoundForValue(h: Bins, value: int): (r: Option<nat>)
    requires WellFormed(h)
    ensures r.Some? ==> r.value < NumBins(h) && BinMax(h, r.value) > value
    ensures r.Some? ==> forall k :: 0 <= k < r.value ==> BinMax(h, k) <= value
    ensures r.None? <==> forall k :: 0 <= k < NumBins(h) ==> BinMax(h, k) <= value
  {
    var index := UpperBound(h.maxs, value);
    if index == |h.maxs| then None else Some(index)
  }

  /** Bins are ordered: a bin lies entirely below every later bin. */
  lemma BinsOrdered(h: Bins, i: nat, j: nat)
    requires WellFormed(h) && i < j < NumBins(h)
    ensures BinMax(h, i) < BinMin(h, j)
  {
  }

  /** Every bin lies within [min(), max()]. */
  lemma BinWithinRange(h: Bins, i: nat)
    requires WellFormed(h) && i < NumBins(h)
    ensures Min(h) <= BinMin(h, i) <= BinMax(h, i) <= Max(h)
  {
    if 0 < i {
      BinsOrdered(h, 0, i);
    }
    if i < NumBins(h) - 1 {
      BinsOrdered(h, i, NumBins(h) - 1);
    }
  }

  /** `_bin_for_value` finds bin i exactly for the values of bin i. */
  lemma BinForValueIffInBin(h: Bins, value: int, i: nat)
    requires WellFormed(h) && i < NumBins(h)
    ensures BinForValue(h, value) == Some(i) <==> BinMin(h, i) <= value <= BinMax(h, i)
  {
    forall j | 0 <= j < i
      ensures BinMax(h, j) < BinMin(h, i)
    {
      BinsOrdered(h, j, i);
    }
  }

  /** A value outside every bin: `_bin_for_value` gives INVALID_BIN_ID exactly when no bin holds it. */
  lemma BinForValueNone(h: Bins, value: int)
    requires WellFormed(h)
    ensures BinForValue(h, value).None? <==> forall i :: 0 <= i < NumBins(h) ==> !(BinMin(h, i) <= value <= BinMax(h, i))
  {
    forall i | 0 <= i < NumBins(h) && BinMin(h, i) <= value <= BinMax(h, i)
      ensures BinForValue(h, value) == Some(i)
    {
      BinForValueIffInBin(h, value, i);
    }
  }

  /**
   * For a value outside every bin, `_upper_bound_for_value` names the gap it falls into: the next bin
   * lies above the value and the previous one below it; None means the value is above max().
   */
  lemma UpperBoundOutsideBins(h: Bins, value: int)
    requires WellFormed(h) && BinForValue(h, value).None?
    ensures match UpperBoundForValue(h, value)
      case Some(u) => value < BinMin(h, u) && (u > 0 ==> BinMax(h, u - 1) < value)
      case None => value > Max(h)
  {
    BinForValueNone(h, value);
  }

  // -------------------------------------------------------------------------------------------------
  // Pruning

  /** No bin strictly between `lo` and `hi` holds a row. */
  predicate EmptyBetween(h: Bins, lo: nat, hi: nat)
    requires WellFormed(h) && hi <= NumBins(h)
  {
    forall b :: lo < b < hi ==> BinCount(h, b) == 0
  }

  /** The scan over the bins between the bins of the two BETWEEN bounds, stopping at a nonempty one. */
  method BinsEmptyBetween(h: Bins, lo: nat, hi: nat) returns (empty: bool)
    requires WellFormed(h) && hi <= NumBins(h)
    ensures empty == EmptyBetween(h, lo, hi)
  {
    var bin := lo + 1;
    while bin < hi
      invariant lo < bin
      invariant forall b :: lo < b < bin && b < hi ==> BinCount(h, b) == 0
    {
      if BinCount(h, bin) > 0 {
        return false;
      }
      bin := bin + 1;
    }
    return true;
  }

  /** When `BETWEEN value AND value2` selects nothing the histogram knows of (the Between case of `_can_prune`). */
  predicate PrunesBetween(h: Bins, value: int, value2: int)
    requires WellFormed(h)
  {
    value > Max(h) || value2 < Min(h) || value2 < value ||
    var bin, bin2 := BinForValue(h, value), BinForValue(h, value2);
    (bin.None? && bin2.None? && NumBins(h) > 1 &&
     UpperBoundForValue(h, value) == UpperBoundForValue(h, value2)) ||
    (bin.Some? && bin2.Some? && BinCount(h, bin.value) == 0 && BinCount(h, bin2.value) == 0 &&
     EmptyBetween(h, bin.value, bin2.value))
  }

  /** `_can_prune`: true when the histogram shows that no row can satisfy the predicate. */
  function CanPrune(h: Bins, pred: PredicateCondition, value: int, value2: Option<int>): Result<bool>
    requires WellFormed(h)
  {
    match pred
    case Equals =>
      var bin := BinForValue(h, value);
      Success(bin.None? || BinCount(h, bin.value) == 0)
    case NotEquals => Success(Min(h) == value && Max(h) == value)
    case LessThan => Success(value <= Min(h))
    case LessThanEquals => Success(value < Min(h))
    case GreaterThanEquals => Success(value > Max(h))
    case GreaterThan => Success(value >= Max(h))
    case Between =>
      if value2.None? then Failure("Between operator needs two values.")
      else Success(PrunesBetween(h, value, value2.value))
    case _ => Success(false)
  }

  /** Whether a column value satisfies the predicate; conditions not evaluated here are taken to hold. */
  predicate Satisfies(pred: PredicateCondition, x: int, value: int, value2: Option<int>)
  {
    match pred
    case Equals => x == value
    case NotEquals => x != value
    case LessThan => x < value
    case LessThanEquals => x <= value
    case GreaterThanEquals => x >= value
    case GreaterThan => x > value
    case Between => value2.Some? && value <= x <= value2.value
    case _ => true
  }

  /** A value occurs in the histogram: it falls into a bin that holds rows. */
  predicate Occurs(h: Bins, x: int)
    requires WellFormed(h)
  {
    var bin := BinForValue(h, x);
    bin.Some? && BinCount(h, bin.value) > 0
  }

  /** The histogram summarises `value_counts`: every value of the column occurs in it. */
  predicate Covers(h: Bins, vc: seq<ValueCount>)
    requires WellFormed(h)
  {
    forall j :: 0 <= j < |vc| ==> Occurs(h, vc[j].0)
  }

  /**
   * Pruning is sound: when `_can_prune` says so, no value of a column the histogram covers satisfies
   * the predicate, so skipping the chunk loses no row.
   */
  lemma PruningIsSound(h: Bins, vc: seq<ValueCount>, pred: PredicateCondition, value: int, value2: Option<int>)
    requires WellFormed(h) && Covers(h, vc) && CanPrune(h, pred, value, value2) == Success(true)
    ensures forall j :: 0 <= j < |vc| ==> !Satisfies(pred, vc[j].0, value, value2)
  {
    forall j | 0 <= j < |vc|
      ensures !Satisfies(pred, vc[j].0, value, value2)
    {
      assert Occurs(h, vc[j].0);
      PrunedValueFails(h, pred, value, value2, vc[j].0);
    }
  }

  /** A value that occurs in the histogram does not satisfy a predicate `_can_prune` prunes. */
  lemma PrunedValueFails(h: Bins, pred: PredicateCondition, value: int, value2: Option<int>, x: int)
    requires WellFormed(h) && Occurs(h, x) && CanPrune(h, pred, value, value2) == Success(true)
    ensures !Satisfies(pred, x, value, value2)
  {
    var b := BinForValue(h, x).value;
    BinWithinRange(h, b);
    if pred == Between {
      BetweenPruningIsSound(h, value, value2.value, x, b);
    }
  }

  lemma BetweenPruningIsSound(h: Bins, value: int, value2: int, x: int, b: nat)
    requires WellFormed(h) && PrunesBetween(h, value, value2)
    requires b < NumBins(h) && BinMin(h, b) <= x <= BinMax(h, b) && BinCount(h, b) > 0
    ensures !(value <= x <= value2)
  {
    if value <= x <= value2 {
      BinWithinRange(h, b);
      var bin, bin2 := BinForValue(h, value), BinForValue(h, value2);
      if bin.None? && bin2.None? {
        GapHoldsNoValue(h, value, value2, x, b);
      } else if bin.Some? && bin2.Some? {
        EmptyBinsHoldNoValue(h, value, value2, x, b);
      }
    }
  }

  /** Two bounds in the same gap between bins enclose no value of any bin. */
  lemma GapHoldsNoValue(h: Bins, value: int, value2: int, x: int, b: nat)
    requires WellFormed(h) && b < NumBins(h) && BinMin(h, b) <= x <= BinMax(h, b)
    requires BinForValue(h, value).None? && BinForValue(h, value2).None? && value <= Max(h)
    requires UpperBoundForValue(h, value) == UpperBoundForValue(h, value2)
    ensures !(value <= x <= value2)
  {
    UpperBoundOutsideBins(h, value);
    UpperBoundOutsideBins(h, value2);
    var u := UpperBoundForValue(h, value).value;
    if b < u - 1 {
      BinsOrdered(h, b, u - 1);
    } else if u < b {
      BinsOrdered(h, u, b);
    }
  }

  /** Two bounds in empty bins with only empty bins between them enclose no value of a nonempty bin. */
  lemma EmptyBinsHoldNoValue(h: Bins, value: int, value2: int, x: int, b: nat)
    requires WellFormed(h) && b < NumBins(h) && BinMin(h, b) <= x <= BinMax(h, b) && BinCount(h, b) > 0
    requires BinForValue(h, value).Some? && BinForValue(h, value2).Some?
    requires BinCount(h, BinForValue(h, value).value) == 0 && BinCount(h, BinForValue(h, value2).value) == 0
    requires EmptyBetween(h, BinForValue(h, value).value, BinForValue(h, value2).value)
    ensures !(value <= x <= value2)
  {
    var p, q := BinForValue(h, value).value, BinForValue(h, value2).value;
    if b < p {
      BinsOrdered(h, b, p);
    } else if q < b {
      BinsOrdered(h, q, b);
    }
  }

  // -------------------------------------------------------------------------------------------------
  // Cardinality estimation

  function RealMin(a: real, b: real): real { if a <= b then a else b }

  /** `total - estimate`, passing a failure through. */
  function Complement(total: nat, r: Result<real>): Result<real>
  {
    match r
    case Failure(e) => Failure(e)
    case Success(c) => Success(total as real - c)
  }

  function Difference(r1: Result<real>, r2: Result<real>): Result<real>
  {
    match r1
    case Failure(e) => Failure(e)
    case Success(c1) =>
      match r2
      case Failure(e) => Failure(e)
      case Success(c2) => Success(c1 - c2)
  }

  /** `_bin_share`: the fraction of bin `index` below `value`, assuming its rows spread evenly. */
  function Share(h: Bins, index: nat, value: int): real
    requires WellFormed(h) && index < NumBins(h)
  {
    (value - BinMin(h, index)) as real / BinWidth(h, index) as real
  }

  /** The part of a bin's `count` that lies below `value`: `_bin_share(index, value) * count`. */
  function PartOfBin(h: Bins, index: nat, value: int, count: nat): real
    requires WellFormed(h) && index < NumBins(h)
  {
    Share(h, index, value) * count as real
  }

  /** The rows of bins 0..k-1. */
  function CountsBefore(h: Bins, k: nat): nat
    requires WellFormed(h) && k <= NumBins(h)
  {
    if k == 0 then 0 else CountsBefore(h, k - 1) + BinCount(h, k - 1)
  }

  /** The distinct values of bins 0..k-1. */
  function DistinctCountsBefore(h: Bins, k: nat): nat
    requires WellFormed(h) && k <= NumBins(h)
  {
    if k == 0 then 0 else DistinctCountsBefore(h, k - 1) + BinCountDistinct(h, k - 1)
  }

  /** The Equals case of `_estimate_cardinality`: the rows of the bin spread over its distinct values. */
  function EqualsCardinality(h: Bins, value: int): Result<real>
    requires WellFormed(h)
  {
    match BinForValue(h, value)
    case None => Failure("INVALID_BIN_ID has no distinct count.")
    case Some(i) =>
      if BinCountDistinct(h, i) == 0 then Failure("0 distinct values in bin.")
      else Success(BinCount(h, i) as real / BinCountDistinct(h, i) as real)
  }

  /**
   * The LessThan case of `_estimate_cardinality`: the share of the value's bin below it plus all
   * earlier bins (or, in a gap, the bins below the gap), capped at the total count.
   */
  function LessThanCardinality(h: Bins, value: int): Result<real>
    requires WellFormed(h)
  {
    if value > Max(h) then Success(TotalCount(h) as real)
    else if value < Min(h) then Failure("Value smaller than min of histogram.")
    else
      match BinForValue(h, value)
      case Some(i) =>
        Success(RealMin(PartOfBin(h, i, value, BinCount(h, i)) + CountsBefore(h, i) as real,
                        TotalCount(h) as real))
      case None =>
        match UpperBoundForValue(h, value)
        case None => Failure("Bin index out of range.")
        case Some(u) =>
          if u > NumBins(h) then Failure("Bin index out of range.")
          else Success(RealMin(CountsBefore(h, u) as real, TotalCount(h) as real))
  }

  /** The summation loop of the LessThan case: adds the counts of the bins before `end`. */
  method AddCountsBefore(h: Bins, start: real, end: nat) returns (cardinality: real)
    requires WellFormed(h) && end <= NumBins(h)
    ensures cardinality == start + CountsBefore(h, end) as real
  {
    cardinality := start;
    for bin := 0 to end
      invariant cardinality == start + CountsBefore(h, bin) as real
    {
      cardinality := cardinality + BinCount(h, bin) as real;
    }
  }

  /** The LessThan case, with the summation over the bins below the value. */
  method EstimateLessThan(h: Bins, value: int) returns (r: Result<real>)
    requires WellFormed(h)
    ensures r == LessThanCardinality(h, value)
  {
    if value > Max(h) {
      return Success(TotalCount(h) as real);
    }
    if value < Min(h) {
      return Failure("Value smaller than min of histogram.");
    }
    var index := BinForValue(h, value);
    if index.None? {
      var upper := UpperBoundForValue(h, value);
      if upper.None? || upper.value > NumBins(h) {
        return Failure("Bin index out of range.");
      }
      var cardinality := AddCountsBefore(h, 0.0, upper.value);
      LessThanCardinalityInRange(h, value);
      return Success(RealMin(cardinality, TotalCount(h) as real));
    }
    var i := index.value;
    var cardinality := AddCountsBefore(h, PartOfBin(h, i, value, BinCount(h, i)), i);
    LessThanCardinalityInRange(h, value);
    return Success(RealMin(cardinality, TotalCount(h) as real));
  }

  /** The two cases of `LessThanCardinality` for a value between the minimum and the maximum. */
  lemma LessThanCardinalityInRange(h: Bins, value: int)
    requires WellFormed(h) && Min(h) <= value <= Max(h)
    ensures BinForValue(h, value).Some? ==>
      var i := BinForValue(h, value).value;
      LessThanCardinality(h, value)
        == Success(RealMin(PartOfBin(h, i, value, BinCount(h, i)) + CountsBefore(h, i) as real, TotalCount(h) as real))
    ensures BinForValue(h, value).None? && UpperBoundForValue(h, value).Some? && UpperBoundForValue(h, value).value <= NumBins(h) ==>
      LessThanCardinality(h, value)
        == Success(RealMin(CountsBefore(h, UpperBoundForValue(h, value).value) as real, TotalCount(h) as real))
  {
  }

  /** How far each predicate is from the base cases Equals and LessThan, to order the recursion. */
  function Rank(pred: PredicateCondition): nat
  {
    match pred
    case NotEquals => 1
    case LessThanEquals => 1
    case GreaterThanEquals => 1
    case GreaterThan => 2
    case Between => 2
    case _ => 0
  }

  /**
   * `estimate_cardinality` for numeric columns (`_estimate_cardinality`), with `value2` passed on as
   * it was given; every other predicate is reduced to Equals and LessThan.
   */
  function EstimateCardinality(h: Bins, pred: PredicateCondition, value: int, value2: Option<int>): Result<real>
    requires WellFormed(h)
    decreases Rank(pred)
  {
    match CanPrune(h, pred, value, value2)
    case Failure(e) => Failure(e)
    case Success(pruned) =>
      if pruned then Success(0.0)
      else
        match pred
        case Equals => EqualsCardinality(h, value)
        case NotEquals => Complement(TotalCount(h), EstimateCardinality(h, Equals, value, None))
        case LessThan => LessThanCardinality(h, value)
        case LessThanEquals => EstimateCardinality(h, LessThan, value + 1, None)
        case GreaterThanEquals => Complement(TotalCount(h), EstimateCardinality(h, LessThan, value, None))
        case GreaterThan => Complement(TotalCount(h), EstimateCardinality(h, LessThanEquals, value, None))
        case Between =>
          if value2.None? then Failure("Between operator needs two values.")
          else if value2.value < value then Success(0.0)
          else Difference(EstimateCardinality(h, LessThanEquals, value2.value, None),
                          EstimateCardinality(h, LessThan, value, None))
        case Like => Failure("Predicate NOT LIKE is not supported for non-string columns.")
        case NotLike => Failure("Predicate NOT LIKE is not supported for non-string columns.")
        case _ => Success(TotalCount(h) as real)
  }

  /**
   * `_estimate_cardinality` as written: it dereferences `value2` before anything else, also in its
   * own recursive calls, which pass no `value2`.
   */
  function EstimateCardinalityAsWritten(h: Bins, pred: PredicateCondition, value: int, value2: Option<int>)
    : Result<real>
    requires WellFormed(h)
  {
    if value2.None? then Failure("Dereference of an empty value2.")
    else
      match CanPrune(h, pred, value, value2)
      case Failure(e) => Failure(e)
      case Success(pruned) =>
        if pruned then Success(0.0)
        else
          match pred
          case Equals => EqualsCardinality(h, value)
          case LessThan => LessThanCardinality(h, value)
          case Like => Failure("Predicate NOT LIKE is not supported for non-string columns.")
          case NotLike => Failure("Predicate NOT LIKE is not supported for non-string columns.")
          case In => Success(TotalCount(h) as real)
          case IsNull => Success(TotalCount(h) as real)
          case IsNotNull => Success(TotalCount(h) as real)
          case _ => Failure("Dereference of an empty value2.")
  }

  /** `estimate_selectivity`: the estimated share of the rows. */
  function EstimateSelectivity(h: Bins, pred: PredicateCondition, value: int, value2: Option<int>): Result<real>
    requires WellFormed(h)
  {
    match EstimateCardinality(h, pred, value, value2)
    case Failure(e) => Failure(e)
    case Success(c) =>
      if TotalCount(h) == 0 then Failure("Division by a total count of zero.")
      else Success(c / TotalCount(h) as real)
  }

  // -------------------------------------------------------------------------------------------------
  // Distinct-count estimation

  /** The LessThan case of `estimate_distinct_count`: like the cardinality, over distinct counts, uncapped. */
  function DistinctLessThan(h: Bins, value: int): Result<real>
    requires WellFormed(h)
  {
    if value > Max(h) then Success(TotalCountDistinct(h) as real)
    else
      match BinForValue(h, value)
      case Some(i) =>
        Success(PartOfBin(h, i, value, BinCountDistinct(h, i)) + DistinctCountsBefore(h, i) as real)
      case None =>
        match UpperBoundForValue(h, value)
        case None => Failure("Bin index out of range.")
        case Some(u) =>
          if u > NumBins(h) then Failure("Bin index out of range.")
          else Success(DistinctCountsBefore(h, u) as real)
  }

  /** The summation loop of the distinct-count LessThan case. */
  method AddDistinctCountsBefore(h: Bins, start: real, end: nat) returns (distinctCount: real)
    requires WellFormed(h) && end <= NumBins(h)
    ensures distinctCount == start + DistinctCountsBefore(h, end) as real
  {
    distinctCount := start;
    for bin := 0 to end
      invariant distinctCount == start + DistinctCountsBefore(h, bin) as real
    {
      distinctCount := distinctCount + BinCountDistinct(h, bin) as real;
    }
  }

  /** The LessThan case of `estimate_distinct_count`, with the summation over the bins below the value. */
  method EstimateDistinctLessThan(h: Bins, value: int) returns (r: Result<real>)
    requires WellFormed(h)
    ensures r == DistinctLessThan(h, value)
  {
    if value > Max(h) {
      return Success(TotalCountDistinct(h) as real);
    }
    var binId := BinForValue(h, value);
    if binId.None? {
      var upper := UpperBoundForValue(h, value);
      if upper.None? || upper.value > NumBins(h) {
        return Failure("Bin index out of range.");
      }
      var distinctCount := AddDistinctCountsBefore(h, 0.0, upper.value);
      assert DistinctLessThan(h, value) == Success(DistinctCountsBefore(h, upper.value) as real);
      return Success(distinctCount);
    }
    var i := binId.value;
    var distinctCount := AddDistinctCountsBefore(h, PartOfBin(h, i, value, BinCountDistinct(h, i)), i);
    assert DistinctLessThan(h, value) == Success(PartOfBin(h, i, value, BinCountDistinct(h, i)) + DistinctCountsBefore(h, i) as real);
    return Success(distinctCount);
  }

  /** `estimate_distinct_count` for numeric columns. */
  function EstimateDistinctCount(h: Bins, pred: PredicateCondition, value: int, value2: Option<int>)
    : Result<real>
    requires WellFormed(h)
    decreases Rank(pred)
  {
    match CanPrune(h, pred, value, value2)
    case Failure(e) => Failure(e)
    case Success(pruned) =>
      if pruned then Success(0.0)
      else
        match pred
        case Equals => Success(1.0)
        case NotEquals =>
          if BinForValue(h, value).None? then Success(TotalCountDistinct(h) as real)
          else Success(TotalCountDistinct(h) as real - 1.0)
        case LessThan => DistinctLessThan(h, value)
        case LessThanEquals => EstimateDistinctCount(h, LessThan, value + 1, None)
        case GreaterThanEquals =>
          Complement(TotalCountDistinct(h), EstimateDistinctCount(h, LessThan, value, None))
        case GreaterThan =>
          Complement(TotalCountDistinct(h), EstimateDistinctCount(h, LessThanEquals, value, None))
        case Between =>
          if value2.None? then Failure("Between operator needs two values.")
          else if value2.value < value then Success(0.0)
          else Difference(EstimateDistinctCount(h, LessThanEquals, value2.value, None),
                          EstimateDistinctCount(h, LessThan, value, None))
        case _ => Success(TotalCountDistinct(h) as real)
  }

  /** x <= v is pruned below min() and otherwise estimates the values below v + 1. */
  lemma CardinalityLessThanEqualsUnfold(h: Bins, value: int, value2: Option<int>)
    requires WellFormed(h)
    ensures EstimateCardinality(h, LessThanEquals, value, value2)
         == if value < Min(h) then Success(0.0) else LessThanCardinality(h, value + 1)
  {
    if value >= Min(h) {
      assert EstimateCardinality(h, LessThanEquals, value, value2) == EstimateCardinality(h, LessThan, value + 1, None);
    }
  }

  /** Unpruned, x <= v counts the distinct values below v + 1. */
  lemma DistinctCountLessThanEqualsUnfold(h: Bins, value: int, value2: Option<int>)
    requires WellFormed(h) && CanPrune(h, LessThanEquals, value, value2) == Success(false)
    ensures EstimateDistinctCount(h, LessThanEquals, value, value2) == EstimateDistinctCount(h, LessThan, value + 1, None)
  {
  }

  lemma DistinctCountNotEqualsUnfold(h: Bins, value: int, value2: Option<int>)
    requires WellFormed(h) && CanPrune(h, NotEquals, value, value2) == Success(false)
    ensures EstimateDistinctCount(h, NotEquals, value, value2)
         == if BinForValue(h, value).None? then Success(TotalCountDistinct(h) as real)
            else Success(TotalCountDistinct(h) as real - 1.0)
  {
  }
}

module AbstractHistogramProperties {
  import opened Wrappers
  import opened HistogramCommon
  import opened AbstractHistogram

  // -------------------------------------------------------------------------------------------------
  // Bounds of the bin quantities

  /**
   * What the statistics of every kind guarantee beyond well-formedness: no bin reports more rows than
   * the histogram holds, and a bin that holds rows holds at least one distinct value.
   */
  predicate Consistent(h: Bins)
    requires WellFormed(h)
  {
    forall i :: 0 <= i < NumBins(h) ==>
      BinCount(h, i) <= TotalCount(h) && (BinCount(h, i) > 0 ==> BinCountDistinct(h, i) > 0)
  }

  lemma RealDivideAtMost(c: real, d: real)
    requires c >= 0.0 && d >= 1.0
    ensures 0.0 <= c / d <= c
  {
    assert c / d * d == c;
  }

  lemma ScaleAtMost(s: real, c: real)
    requires 0.0 <= s <= 1.0 && c >= 0.0
    ensures 0.0 <= s * c <= c
  {
  }

  /** `_bin_share` of a value in the bin lies in [0, 1). */
  lemma ShareBounds(h: Bins, i: nat, value: int)
    requires WellFormed(h) && i < NumBins(h) && BinMin(h, i) <= value <= BinMax(h, i)
    ensures 0.0 <= Share(h, i, value) < 1.0
  {
    var d := (value - BinMin(h, i)) as real;
    var w := BinWidth(h, i) as real;
    assert 0.0 <= d < w;
    assert d / w * w == d;
  }

  lemma PartOfBinBounds(h: Bins, i: nat, value: int, count: nat)
    requires WellFormed(h) && i < NumBins(h) && BinMin(h, i) <= value <= BinMax(h, i)
    ensures 0.0 <= PartOfBin(h, i, value, count) <= count as real
  {
    ShareBounds(h, i, value);
    ScaleAtMost(Share(h, i, value), count as real);
  }

  // -------------------------------------------------------------------------------------------------
  // Cardinality estimates

  /** From min() on, the LessThan estimate exists and lies in [0, total_count()]. */
  lemma LessThanCardinalityBounds(h: Bins, value: int)
    requires WellFormed(h) && Min(h) <= value
    ensures LessThanCardinality(h, value).Success?
    ensures 0.0 <= LessThanCardinality(h, value).value <= TotalCount(h) as real
  {
    if value <= Max(h) {
      match BinForValue(h, value)
      case Some(i) => PartOfBinBounds(h, i, value, BinCount(h, i));
      case None => UpperBoundOutsideBins(h, value);
    }
  }

  /** The Equals estimate, where it exists, lies in [0, total_count()]. */
  lemma EqualsCardinalityBounds(h: Bins, value: int)
    requires WellFormed(h) && Consistent(h)
    requires BinForValue(h, value).Some? && BinCount(h, BinForValue(h, value).value) > 0
    ensures EqualsCardinality(h, value).Success?
    ensures 0.0 <= EqualsCardinality(h, value).value <= TotalCount(h) as real
  {
    var i := BinForValue(h, value).value;
    RealDivideAtMost(BinCount(h, i) as real, BinCountDistinct(h, i) as real);
  }

  lemma EqualsEstimateBounds(h: Bins, value: int, value2: Option<int>)
    requires WellFormed(h) && Consistent(h)
    ensures EstimateCardinality(h, Equals, value, value2).Success?
    ensures 0.0 <= EstimateCardinality(h, Equals, value, value2).value <= TotalCount(h) as real
  {
    if CanPrune(h, Equals, value, value2) != Success(true) {
      EqualsCardinalityBounds(h, value);
    }
  }

  lemma LessThanEstimateBounds(h: Bins, value: int, value2: Option<int>)
    requires WellFormed(h)
    ensures EstimateCardinality(h, LessThan, value, value2).Success?
    ensures 0.0 <= EstimateCardinality(h, LessThan, value, value2).value <= TotalCount(h) as real
  {
    if CanPrune(h, LessThan, value, value2) != Success(true) {
      LessThanCardinalityBounds(h, value);
    }
  }

  lemma NotEqualsEstimateBounds(h: Bins, value: int, value2: Option<int>)
    requires WellFormed(h) && Consistent(h)
    ensures EstimateCardinality(h, NotEquals, value, value2).Success?
    ensures 0.0 <= EstimateCardinality(h, NotEquals, value, value2).value <= TotalCount(h) as real
  {
    EqualsEstimateBounds(h, value, None);
  }

  lemma LessThanEqualsEstimateBounds(h: Bins, value: int, value2: Option<int>)
    requires WellFormed(h)
    ensures EstimateCardinality(h, LessThanEquals, value, value2).Success?
    ensures 0.0 <= EstimateCardinality(h, LessThanEquals, value, value2).value <= TotalCount(h) as real
  {
    CardinalityLessThanEqualsUnfold(h, value, value2);
    if value >= Min(h) {
      LessThanCardinalityBounds(h, value + 1);
    }
  }

  lemma GreaterThanEqualsEstimateBounds(h: Bins, value: int, value2: Option<int>)
    requires WellFormed(h)
    ensures EstimateCardinality(h, GreaterThanEquals, value, value2).Success?
    ensures 0.0 <= EstimateCardinality(h, GreaterThanEquals, value, value2).value <= TotalCount(h) as real
  {
    LessThanEstimateBounds(h, value, None);
  }

  lemma GreaterThanEstimateBounds(h: Bins, value: int, value2: Option<int>)
    requires WellFormed(h)
    ensures EstimateCardinality(h, GreaterThan, value, value2).Success?
    ensures 0.0 <= EstimateCardinality(h, GreaterThan, value, value2).value <= TotalCount(h) as real
  {
    LessThanEqualsEstimateBounds(h, value, None);
  }

  /** The BETWEEN estimate exists given its second value and is at most total_count(). */
  lemma BetweenEstimateBounds(h: Bins, value: int, value2: int)
    requires WellFormed(h)
    ensures EstimateCardinality(h, Between, value, Some(value2)).Success?
    ensures EstimateCardinality(h, Between, value, Some(value2)).value <= TotalCount(h) as real
  {
    LessThanEqualsEstimateBounds(h, value2, None);
    LessThanEstimateBounds(h, value, None);
  }

  /**
   * Every estimate the model defines exists (LIKE aside, and BETWEEN given its second value) and is at
   * most total_count(); all but BETWEEN are also nonnegative.
   */
  lemma EstimateBounds(h: Bins, pred: PredicateCondition, value: int, value2: Option<int>)
    requires WellFormed(h) && Consistent(h)
    requires pred != Like && pred != NotLike && (pred == Between ==> value2.Some?)
    ensures EstimateCardinality(h, pred, value, value2).Success?
    ensures EstimateCardinality(h, pred, value, value2).value <= TotalCount(h) as real
    ensures pred != Between ==> 0.0 <= EstimateCardinality(h, pred, value, value2).value
  {
    match pred
    case Equals => EqualsEstimateBounds(h, value, value2);
    case NotEquals => NotEqualsEstimateBounds(h, value, value2);
    case LessThan => LessThanEstimateBounds(h, value, value2);
    case LessThanEquals => LessThanEqualsEstimateBounds(h, value, value2);
    case GreaterThanEquals => GreaterThanEqualsEstimateBounds(h, value, value2);
    case GreaterThan => GreaterThanEstimateBounds(h, value, value2);
    case Between => BetweenEstimateBounds(h, value, value2.value);
    case _ =>
  }

  /** A prunable predicate is estimated to select no rows. */
  lemma PrunedEstimatesZero(h: Bins, pred: PredicateCondition, value: int, value2: Option<int>)
    requires WellFormed(h) && CanPrune(h, pred, value, value2) == Success(true)
    ensures EstimateCardinality(h, pred, value, value2) == Success(0.0)
    ensures EstimateDistinctCount(h, pred, value, value2) == Success(0.0)
  {
  }

  /** `x <= v` is estimated as `x < next_value(v)`. */
  lemma LessThanEqualsIsLessThanNext(h: Bins, value: int, value2: Option<int>)
    requires WellFormed(h)
    ensures EstimateCardinality(h, LessThanEquals, value, value2) == EstimateCardinality(h, LessThan, value + 1, None)
    ensures EstimateDistinctCount(h, LessThanEquals, value, value2)
         == EstimateDistinctCount(h, LessThan, value + 1, None)
  {
  }

  /** For every value, the estimates of `x < v` and `x >= v` add up to the total count. */
  lemma LessThanAndAtLeastPartition(h: Bins, value: int)
    requires WellFormed(h)
    ensures EstimateCardinality(h, LessThan, value, None).Success?
    ensures EstimateCardinality(h, GreaterThanEquals, value, None).Success?
    ensures EstimateCardinality(h, LessThan, value, None).value
          + EstimateCardinality(h, GreaterThanEquals, value, None).value == TotalCount(h) as real
  {
    BinWithinRange(h, NumBins(h) - 1);
    if Min(h) <= value {
      LessThanCardinalityBounds(h, value);
    }
  }

  /** For every value, the estimates of `x <= v` and `x > v` add up to the total count. */
  lemma AtMostAndGreaterThanPartition(h: Bins, value: int)
    requires WellFormed(h)
    ensures EstimateCardinality(h, LessThanEquals, value, None).Success?
    ensures EstimateCardinality(h, GreaterThan, value, None).Success?
    ensures EstimateCardinality(h, LessThanEquals, value, None).value
          + EstimateCardinality(h, GreaterThan, value, None).value == TotalCount(h) as real
  {
    BinWithinRange(h, NumBins(h) - 1);
    LessThanAndAtLeastPartition(h, value + 1);
  }

  /** Unless the histogram holds the single value v, `x = v` and `x != v` split the total count. */
  lemma EqualsAndNotEqualsPartition(h: Bins, value: int)
    requires WellFormed(h) && Consistent(h) && !(Min(h) == value && Max(h) == value)
    ensures EstimateCardinality(h, Equals, value, None).Success?
    ensures EstimateCardinality(h, NotEquals, value, None).Success?
    ensures EstimateCardinality(h, Equals, value, None).value
          + EstimateCardinality(h, NotEquals, value, None).value == TotalCount(h) as real
  {
    EstimateBounds(h, Equals, value, None);
  }

  lemma RatioBounds(c: real, t: real)
    requires 0.0 <= c <= t && t > 0.0
    ensures 0.0 <= c / t <= 1.0
  {
    assert c / t * t == c;
  }

  /** Every selectivity the model defines apart from BETWEEN lies in [0, 1]. */
  lemma SelectivityBounds(h: Bins, pred: PredicateCondition, value: int, value2: Option<int>)
    requires WellFormed(h) && Consistent(h) && TotalCount(h) > 0
    requires pred != Like && pred != NotLike && pred != Between
    ensures EstimateSelectivity(h, pred, value, value2).Success?
    ensures 0.0 <= EstimateSelectivity(h, pred, value, value2).value <= 1.0
  {
    EstimateBounds(h, pred, value, value2);
    RatioBounds(EstimateCardinality(h, pred, value, value2).value, TotalCount(h) as real);
  }

  // -------------------------------------------------------------------------------------------------
  // The dereference of an absent value2

  /** Without a second value the code as written dereferences an empty optional, for every predicate. */
  lemma AsWrittenNeedsValue2(h: Bins, pred: PredicateCondition, value: int)
    requires WellFormed(h)
    ensures EstimateCardinalityAsWritten(h, pred, value, None).Failure?
  {
  }

  /**
   * Even with a second value, the recursive calls of the code as written pass none: `x <= v` fails
   * there for every v from min() on, where the corrected estimate exists.
   */
  lemma AsWrittenFailsOnLessThanEquals(h: Bins, value: int, value2: int)
    requires WellFormed(h) && Min(h) <= value
    ensures EstimateCardinalityAsWritten(h, LessThanEquals, value, Some(value2)).Failure?
    ensures EstimateCardinality(h, LessThanEquals, value, Some(value2)).Success?
  {
    LessThanCardinalityBounds(h, value + 1);
  }

  /** Where the code as written produces an estimate, the corrected one agrees. */
  lemma AsWrittenAgrees(h: Bins, pred: PredicateCondition, value: int, value2: Option<int>)
    requires WellFormed(h) && EstimateCardinalityAsWritten(h, pred, value, value2).Success?
    ensures EstimateCardinality(h, pred, value, value2) == EstimateCardinalityAsWritten(h, pred, value, value2)
  {
  }

  // -------------------------------------------------------------------------------------------------
  // Distinct-count estimates

  /** From min() on, the distinct LessThan estimate exists and is nonnegative. */
  lemma DistinctLessThanExists(h: Bins, value: int)
    requires WellFormed(h) && Min(h) <= value
    ensures DistinctLessThan(h, value).Success? && DistinctLessThan(h, value).value >= 0.0
  {
    if value <= Max(h) {
      match BinForValue(h, value)
      case Some(i) => PartOfBinBounds(h, i, value, BinCountDistinct(h, i));
      case None => UpperBoundOutsideBins(h, value);
    }
  }

  /** For every value, the distinct estimates of `x < v` and `x >= v` add up to total_count_distinct(). */
  lemma DistinctLessThanAndAtLeastPartition(h: Bins, value: int)
    requires WellFormed(h)
    ensures EstimateDistinctCount(h, LessThan, value, None).Success?
    ensures EstimateDistinctCount(h, GreaterThanEquals, value, None).Success?
    ensures EstimateDistinctCount(h, LessThan, value, None).value
          + EstimateDistinctCount(h, GreaterThanEquals, value, None).value == TotalCountDistinct(h) as real
  {
    BinWithinRange(h, NumBins(h) - 1);
    if Min(h) <= value {
      DistinctLessThanExists(h, value);
    }
  }
}
