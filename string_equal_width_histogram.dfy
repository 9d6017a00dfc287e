/**
 * The `std::string` specialisations of the equal-width histogram: `_get_bin_stats` with supported
 * characters and a prefix length, `_string_bin_width`, `_bin_min`, `_bin_max` and `_bin_for_value`.
 *
 * The bins cut the range of number representations [repr(min), repr(max)] exactly as the integer
 * histogram cuts [min, max]; strings within the prefix length are ordered by `std::string` comparison
 * as their representations are (`LexLessIffReprLess`). Every computation here is therefore stated as
 * the integer one of EqualWidthHistogram on `View`, the histogram with its bounds as representations.
 */
module StringEqualWidthHistogram {
  import opened Wrappers
  import opened Arithmetic
  import opened HistogramCommon
  import opened HistogramUtils
  import EW = EqualWidthHistogram
  import SH = StringHistogram
  import A = AbstractHistogram
  import HK = HistogramKinds

  type StringCount = (string, nat)

  datatype Histogram = Histogram(min: string, max: string, counts: seq<nat>, distinctCounts: seq<nat>,
                                 numBinsWithLargerRange: nat, chars: string, prefixLength: nat)

  /**
   * Value counts of supported strings within the prefix length, strictly ascending under `std::string`
   * comparison, as the sorted value counts of a column are.
   */
  predicate Encodable(vc: seq<StringCount>, chars: string, prefixLength: nat)
  {
    (forall k :: 0 <= k < |vc| ==> Supported(vc[k].0, chars) && |vc[k].0| <= prefixLength) &&
    (forall i, j :: 0 <= i < j < |vc| ==> LexLess(vc[i].0, vc[j].0))
  }

  /** The value counts with every string replaced by its representation. */
  function Reprs(vc: seq<StringCount>, chars: string, prefixLength: nat): (r: seq<ValueCount>)
    requires SH.SettingsAreValid(chars, prefixLength) && Encodable(vc, chars, prefixLength)
    ensures |r| == |vc|
    ensures forall k :: 0 <= k < |vc| ==> r[k] == (Repr(vc[k].0, chars, prefixLength), vc[k].1)
  {
    seq(|vc|, k requires 0 <= k < |vc| => (Repr(vc[k].0, chars, prefixLength), vc[k].1))
  }

  /** The representations of ascending strings ascend: the integer histogram applies to them. */
  lemma ReprsSorted(vc: seq<StringCount>, chars: string, prefixLength: nat)
    requires SH.SettingsAreValid(chars, prefixLength) && Encodable(vc, chars, prefixLength)
    ensures StrictlySorted(Reprs(vc, chars, prefixLength))
  {
    var r := Reprs(vc, chars, prefixLength);
    forall i, j | 0 <= i < j < |r| ensures r[i].0 < r[j].0 {
      LexLessIffReprLess(vc[i].0, vc[j].0, chars, prefixLength);
    }
  }

  /** The `std::accumulate` of the occurrences of a run of value counts. */
  function StringTotal(vc: seq<StringCount>): nat
  {
    if |vc| == 0 then 0 else StringTotal(vc[..|vc| - 1]) + vc[|vc| - 1].1
  }

  /** The occurrences of a run are those of the same run of representations, or of any pairs with the same counts. */
  lemma {:induction false} StringTotalIsTotal(vc: seq<StringCount>, r: seq<ValueCount>, b: nat, e: nat)
    requires |r| == |vc| && forall k :: 0 <= k < |vc| ==> r[k].1 == vc[k].1
    requires b <= e <= |vc|
    ensures StringTotal(vc[b..e]) == Total(r[b..e])
    decreases e - b
  {
    if b < e {
      StringTotalIsTotal(vc, r, b, e - 1);
      assert vc[b..e][..e - b - 1] == vc[b..e - 1];
      assert r[b..e][..e - b - 1] == r[b..e - 1];
    }
  }

  // -------------------------------------------------------------------------------------------------
  // The histogram and its view on representations

  /** Valid settings and bounds that are supported strings within the prefix length. */
  predicate Encoded(h: Histogram)
  {
    SH.SettingsAreValid(h.chars, h.prefixLength) &&
    Supported(h.min, h.chars) && |h.min| <= h.prefixLength &&
    Supported(h.max, h.chars) && |h.max| <= h.prefixLength
  }

  /** The histogram with its bounds as representations: what every string computation reduces to. */
  function View(h: Histogram): EW.Histogram
    requires Encoded(h)
  {
    EW.Histogram(Repr(h.min, h.chars, h.prefixLength), Repr(h.max, h.chars, h.prefixLength),
                 h.counts, h.distinctCounts, h.numBinsWithLargerRange)
  }

  predicate WellFormed(h: Histogram)
  {
    Encoded(h) && EW.WellFormed(View(h))
  }

  /** The string histogram whose bins are those the accessors of this equal-width histogram present. */
  function AsStringHistogram(h: Histogram): SH.Histogram
    requires WellFormed(h)
  {
    SH.Histogram(h.chars, h.prefixLength, HK.EqualWidthView(View(h)))
  }

  /**
   * The shared string estimators apply: the presented bins are well formed, they span the
   * representations of min and max, and every bin holds the representations of its strings.
   */
  lemma AsStringHistogramWellFormed(h: Histogram)
    requires WellFormed(h)
    ensures SH.WellFormed(AsStringHistogram(h))
    ensures A.Min(AsStringHistogram(h).bins) == Repr(h.min, h.chars, h.prefixLength)
    ensures A.Max(AsStringHistogram(h).bins) == Repr(h.max, h.chars, h.prefixLength)
  {
    HK.EqualWidthViewWellFormed(View(h));
    ReprBound(h.max, h.chars, h.prefixLength);
  }

  /** Every bin lies within [min, max] and is nonempty. */
  lemma BinWithinBounds(e: EW.Histogram, index: nat)
    requires EW.WellFormed(e) && index < EW.NumBins(e)
    ensures e.min <= EW.BinMin(e, index) <= EW.BinMax(e, index) <= e.max
  {
    EW.BinWidthPositive(e);
    EW.BinMaxIsNextBeginMinusOne(e, index);
    EW.BinBeginMonotone(e.min, EW.CommonWidth(e), e.numBinsWithLargerRange, 0, index);
    EW.BinBeginMonotone(e.min, EW.CommonWidth(e), e.numBinsWithLargerRange, index + 1, EW.NumBins(e));
    EW.BinBeginLast(e.min, e.max - e.min + 1, EW.NumBins(e));
  }

  // -------------------------------------------------------------------------------------------------
  // Bin bounds and widths

  /**
   * `_string_bin_width(index)`: the number of representations divided by the number of bins, plus
   * one for the first `num_bins_with_larger_range` bins, which is the integer bin width of the view.
   */
  function StringBinWidth(h: Histogram, index: nat): (w: nat)
    requires WellFormed(h) && index < |h.counts|
    ensures w == EW.BinWidth(View(h), index) && w >= 1
  {
    EW.BinWidthPositive(View(h));
    var numMin := Repr(h.min, h.chars, h.prefixLength);
    var numMax := Repr(h.max, h.chars, h.prefixLength);
    var baseWidth := (numMax - numMin + 1) / |h.counts|;
    baseWidth + (if index < h.numBinsWithLargerRange then 1 else 0)
  }

  /**
   * `_bin_min(index)` as written: the string of `num_min + index * _string_bin_width(index) +
   * min(index, num_bins_with_larger_range)`. A number past the last string fails the `DebugAssert`
   * of the number-to-string conversion.
   */
  function BinMinAsWritten(h: Histogram, index: nat): (r: Result<string>)
    requires WellFormed(h) && index < |h.counts|
    ensures r.Success? <==> EW.BinMinAsWritten(View(h), index) <= MaxRepr(|h.chars|, h.prefixLength)
    ensures r.Success? ==> (Supported(r.value, h.chars) && |r.value| <= h.prefixLength &&
      Repr(r.value, h.chars, h.prefixLength) == EW.BinMinAsWritten(View(h), index))
  {
    var numMin := Repr(h.min, h.chars, h.prefixLength);
    MulNonNegative(index, StringBinWidth(h, index));
    var baseMin := numMin + index * StringBinWidth(h, index);
    var v := baseMin + Min(index, h.numBinsWithLargerRange);
    if v > MaxRepr(|h.chars|, h.prefixLength) then
      Failure("Value is not in valid range for supported_characters and string_prefix_length.")
    else
      ReprOfToStr(v, h.chars, h.prefixLength);
      Success(ToStr(v, h.chars, h.prefixLength))
  }

  /** The first string of bin `index` as `_get_bin_stats` lays the bins out. */
  function BinMin(h: Histogram, index: nat): (s: string)
    requires WellFormed(h) && index < |h.counts|
    ensures Supported(s, h.chars) && |s| <= h.prefixLength
    ensures Repr(s, h.chars, h.prefixLength) == EW.BinMin(View(h), index)
  {
    BinWithinBounds(View(h), index);
    ReprBound(h.max, h.chars, h.prefixLength);
    ReprOfToStr(EW.BinMin(View(h), index), h.chars, h.prefixLength);
    ToStr(EW.BinMin(View(h), index), h.chars, h.prefixLength)
  }

  /**
   * `_bin_max(index)` on the bins `_get_bin_stats` laid out: max for the last bin, else the string
   * just before the next bin's first. The source takes the string before `_bin_min(index + 1)` as
   * written, which differs where bin `index + 1` is one of the wider bins.
   */
  function BinMax(h: Histogram, index: nat): (s: string)
    requires WellFormed(h) && index < |h.counts|
    ensures Supported(s, h.chars) && |s| <= h.prefixLength
    ensures Repr(s, h.chars, h.prefixLength) == EW.BinMax(View(h), index)
  {
    if index == |h.counts| - 1 then h.max
    else
      var next := BinMin(h, index + 1);
      BinWithinBounds(View(h), index);
      BinWithinBounds(View(h), index + 1);
      PreviousIsReprMinusOne(next, h.chars, h.prefixLength);
      PreviousValue(next, h.chars, h.prefixLength)
  }

  /**
   * The two bin widths agree: AbstractHistogram's `_string_bin_width`, the representation of
   * `_bin_max` minus that of `_bin_min` plus one, is the equal-width histogram's own.
   */
  lemma BoundsWidthIsStringBinWidth(h: Histogram, index: nat)
    requires WellFormed(h) && index < |h.counts|
    ensures Repr(BinMax(h, index), h.chars, h.prefixLength) - Repr(BinMin(h, index), h.chars, h.prefixLength) + 1
            == StringBinWidth(h, index)
  {
    EW.BinMaxIsNextBeginMinusOne(View(h), index);
  }

  /**
   * As for integers, `_bin_min` as written is too high by the bin's index in a wider bin after the
   * first, and is the bin's first string everywhere else.
   */
  lemma BinMinAsWrittenOffset(h: Histogram, index: nat)
    requires WellFormed(h) && index < |h.counts|
    ensures BinMinAsWritten(h, index).Success? ==>
      Repr(BinMinAsWritten(h, index).value, h.chars, h.prefixLength)
        == Repr(BinMin(h, index), h.chars, h.prefixLength) + (if index < h.numBinsWithLargerRange then index else 0)
    ensures index == 0 || index >= h.numBinsWithLargerRange ==> BinMinAsWritten(h, index) == Success(BinMin(h, index))
  {
    EW.BinMinAsWrittenOffset(View(h), index);
    BinWithinBounds(View(h), index);
    ReprBound(h.max, h.chars, h.prefixLength);
    if index == 0 || index >= h.numBinsWithLargerRange {
      ReprInjectiveWithin(BinMinAsWritten(h, index).value, BinMin(h, index), h.chars, h.prefixLength);
    }
  }

  lemma ReprInjectiveWithin(s: string, t: string, chars: string, prefixLength: nat)
    requires SH.SettingsAreValid(chars, prefixLength) && Supported(s, chars) && Supported(t, chars)
    requires |s| <= prefixLength && |t| <= prefixLength
    requires Repr(s, chars, prefixLength) == Repr(t, chars, prefixLength)
    ensures s == t
  {
    SH.ReprInjective(s, t, chars, prefixLength);
  }

  /**
   * Characters a..j, prefix length 1, strings "a" to "j" in four bins: the bins are "a".."c",
   * "d".."f", "g".."h" and "i".."j", but `_bin_min(1)` as written is "e".
   */
  lemma BinMinAsWrittenExample()
    ensures var h := Histogram("a", "j", [1, 1, 1, 1], [1, 1, 1, 1], 2, "abcdefghij", 1);
      WellFormed(h) && BinMin(h, 1) == "d" && BinMinAsWritten(h, 1) == Success("e") &&
      BinMax(h, 0) == "c" && BinMin(h, 3) == "i"
  {
    var h := Histogram("a", "j", [1, 1, 1, 1], [1, 1, 1, 1], 2, "abcdefghij", 1);
    ExampleSettings();
    assert Repr("a", h.chars, 1) == 1;
    assert Repr("j", h.chars, 1) == 10;
    assert EW.BinMin(View(h), 1) == 4 by { EW.BinBeginClosedForm(1, 2, 2, 1); }
    assert EW.BinMin(View(h), 2) == 7 by { EW.BinBeginClosedForm(1, 2, 2, 2); }
    assert EW.BinMin(View(h), 3) == 9 by { EW.BinBeginClosedForm(1, 2, 2, 3); }
    ExampleStrings();
    ReprInjectiveWithin(BinMin(h, 1), "d", h.chars, 1);
    ReprInjectiveWithin(BinMin(h, 3), "i", h.chars, 1);
    ReprInjectiveWithin(BinMax(h, 0), "c", h.chars, 1);
    ReprInjectiveWithin(BinMinAsWritten(h, 1).value, "e", h.chars, 1);
  }

  lemma ExampleSettings()
    ensures SH.SettingsAreValid("abcdefghij", 1) && BaseValue(10, 1) == 1 && MaxRepr(10, 1) == 10
  {
    assert Pow(11, 1) == 11 * Pow(11, 0);
    assert MaxRepr(10, 1) == 10 by { ReprOfLastString("abcdefghij", 1); }
  }

  lemma ExampleStrings()
    ensures Supported("c", "abcdefghij") && Supported("d", "abcdefghij")
    ensures Supported("e", "abcdefghij") && Supported("i", "abcdefghij")
    ensures Repr("c", "abcdefghij", 1) == 3 && Repr("d", "abcdefghij", 1) == 4
    ensures Repr("e", "abcdefghij", 1) == 5 && Repr("i", "abcdefghij", 1) == 9
  {
    ExampleSettings();
    assert "c"[0] == "abcdefghij"[2] && "d"[0] == "abcdefghij"[3];
    assert "e"[0] == "abcdefghij"[4] && "i"[0] == "abcdefghij"[8];
  }

  // -------------------------------------------------------------------------------------------------
  // Bin lookup

  /**
   * `_bin_for_value(value)` for strings: INVALID outside [min, max] under `std::string` comparison;
   * otherwise the representation's offset divided by the width of bin 0 up to the last wider bin, else
   * by the narrower width from bin `num_bins_with_larger_range`. Inside the bounds an unsupported
   * character fails the conversion's `Assert`.
   */
  function BinForValue(h: Histogram, value: string): (r: Result<Option<nat>>)
    requires WellFormed(h) && |value| <= h.prefixLength
    ensures (LexLess(value, h.min) || LexLess(h.max, value)) ==> r == Success(None)
    ensures r.Failure? <==> !Supported(value, h.chars) && !LexLess(value, h.min) && !LexLess(h.max, value)
    ensures Supported(value, h.chars) ==>
      r == Success(EW.BinForValue(View(h), Repr(value, h.chars, h.prefixLength)))
  {
    var extra := h.numBinsWithLargerRange;
    if LexLess(value, h.min) || LexLess(h.max, value) then
      if Supported(value, h.chars) then
        LexLessIffReprLess(value, h.min, h.chars, h.prefixLength);
        LexLessIffReprLess(h.max, value, h.chars, h.prefixLength);
        Success(None)
      else Success(None)
    else if !Supported(value, h.chars) then Failure("Unsupported characters.")
    else
      var numValue := Repr(value, h.chars, h.prefixLength);
      if extra == 0 || SH.LexLeq(value, BinMax(h, extra - 1)) then
        InsideWideAgrees(h, value);
        var numMin := Repr(h.min, h.chars, h.prefixLength);
        Success(Some((numValue - numMin) / StringBinWidth(h, 0)))
      else
        InsideNarrowAgrees(h, value);
        var numBaseMin := Repr(BinMin(h, extra), h.chars, h.prefixLength);
        Success(Some(extra + (numValue - numBaseMin) / StringBinWidth(h, extra)))
  }

  /** Inside the bounds and up to the last wider bin's max, the string lookup is the integer lookup's first case. */
  lemma InsideWideAgrees(h: Histogram, value: string)
    requires WellFormed(h) && |value| <= h.prefixLength && Supported(value, h.chars)
    requires !LexLess(value, h.min) && !LexLess(h.max, value)
    requires h.numBinsWithLargerRange == 0 || SH.LexLeq(value, BinMax(h, h.numBinsWithLargerRange - 1))
    ensures var numValue := Repr(value, h.chars, h.prefixLength);
      var numMin := Repr(h.min, h.chars, h.prefixLength);
      var r := EW.BinForValue(View(h), numValue);
      numValue >= numMin && r.Some? && r.value == (numValue - numMin) / StringBinWidth(h, 0)
  {
    LexLessIffReprLess(value, h.min, h.chars, h.prefixLength);
    LexLessIffReprLess(h.max, value, h.chars, h.prefixLength);
    if h.numBinsWithLargerRange > 0 {
      WideTestAgrees(h, value);
    }
    var e := View(h);
    LookupWide(e, Repr(value, h.chars, h.prefixLength));
    assert Repr(h.min, h.chars, h.prefixLength) == e.min;
    assert StringBinWidth(h, 0) == EW.BinWidth(e, 0);
  }

  /** Past the last wider bin's max, the string lookup is the integer lookup's second case. */
  lemma InsideNarrowAgrees(h: Histogram, value: string)
    requires WellFormed(h) && |value| <= h.prefixLength && Supported(value, h.chars)
    requires !LexLess(value, h.min) && !LexLess(h.max, value)
    requires h.numBinsWithLargerRange > 0 && !SH.LexLeq(value, BinMax(h, h.numBinsWithLargerRange - 1))
    ensures h.numBinsWithLargerRange < |h.counts|
    ensures var numValue := Repr(value, h.chars, h.prefixLength);
      var extra := h.numBinsWithLargerRange;
      var numBaseMin := Repr(BinMin(h, extra), h.chars, h.prefixLength);
      var r := EW.BinForValue(View(h), numValue);
      numValue >= numBaseMin && r.Some? && r.value == extra + (numValue - numBaseMin) / StringBinWidth(h, extra)
  {
    LexLessIffReprLess(value, h.min, h.chars, h.prefixLength);
    LexLessIffReprLess(h.max, value, h.chars, h.prefixLength);
    WideTestAgrees(h, value);
    var e := View(h);
    var extra := h.numBinsWithLargerRange;
    LookupNarrow(e, Repr(value, h.chars, h.prefixLength));
    assert Repr(BinMin(h, extra), h.chars, h.prefixLength) == EW.BinMin(e, extra);
    assert StringBinWidth(h, extra) == EW.BinWidth(e, extra);
  }

  /** The integer lookup of a value in the wider bins divides its offset from min by the wider width. */
  lemma LookupWide(e: EW.Histogram, v: int)
    requires EW.WellFormed(e) && e.min <= v <= e.max
    requires e.numBinsWithLargerRange == 0 || v <= EW.BinMax(e, e.numBinsWithLargerRange - 1)
    ensures EW.BinForValue(e, v).Some? && EW.BinForValue(e, v).value == (v - e.min) / EW.BinWidth(e, 0)
  {
  }

  /** Past the wider bins, the integer lookup divides the offset from the first narrower bin by its width. */
  lemma LookupNarrow(e: EW.Histogram, v: int)
    requires EW.WellFormed(e) && e.min <= v <= e.max
    requires e.numBinsWithLargerRange > 0 && v > EW.BinMax(e, e.numBinsWithLargerRange - 1)
    ensures e.numBinsWithLargerRange < EW.NumBins(e) && v >= EW.BinMin(e, e.numBinsWithLargerRange)
    ensures var r := EW.BinForValue(e, v);
      var extra := e.numBinsWithLargerRange;
      r.Some? && r.value == extra + (v - EW.BinMin(e, extra)) / EW.BinWidth(e, extra)
  {
    EW.BinWidthPositive(e);
  }

  /** The string test against the last wider bin's max is the integer test of the representations. */
  lemma WideTestAgrees(h: Histogram, value: string)
    requires WellFormed(h) && |value| <= h.prefixLength && Supported(value, h.chars)
    requires h.numBinsWithLargerRange > 0
    ensures h.numBinsWithLargerRange - 1 < |h.counts|
    ensures SH.LexLeq(value, BinMax(h, h.numBinsWithLargerRange - 1))
        <==> Repr(value, h.chars, h.prefixLength) <= EW.BinMax(View(h), h.numBinsWithLargerRange - 1)
  {
    EW.BinWidthPositive(View(h));
    SH.LexLeqIffReprLeq(value, BinMax(h, h.numBinsWithLargerRange - 1), h.chars, h.prefixLength);
  }


  // -------------------------------------------------------------------------------------------------
  // Building the bins

  /** Where the begin value of each bin lies: the step from one bin to the next stays within the range. */
  lemma BinStep(min: int, range: nat, numBins: nat, id: nat)
    requires 0 < numBins <= range && id < numBins
    ensures var w := range / numBins;
      var e := range % numBins;
      w >= 1 && e < numBins &&
      EW.BinBegin(min, w, e, id + 1) == EW.BinBegin(min, w, e, id) + w + (if id < e then 1 else 0) &&
      min <= EW.BinBegin(min, w, e, id) &&
      (id + 1 < numBins ==> EW.BinBegin(min, w, e, id + 1) + w <= min + range) &&
      (id + 1 == numBins ==> EW.BinBegin(min, w, e, id) + w == min + range)
  {
    var w := range / numBins;
    var e := range % numBins;
    DivModIdentity(range, numBins);
    assert w >= 1;
    EW.BinBeginLast(min, range, numBins);
    EW.BinBeginNarrow(min, w, e, numBins);
    EW.BinBeginNarrow(min, w, e, numBins - 1);
    EW.BinBeginMonotone(min, w, e, 0, id);
    if id + 1 < numBins {
      EW.BinBeginMonotone(min, w, e, id + 1, numBins - 1);
    }
  }

  /**
   * The last string of a bin and the first of the next, for the representation v that lies `bin_width`
   * after the bin's begin: v itself ends a wider bin, the one before it a narrower one.
   */
  predicate BoundsAfter(end: string, next: string, v: int, wide: bool, chars: string, prefixLength: nat)
    requires SH.SettingsAreValid(chars, prefixLength)
  {
    Supported(end, chars) && |end| <= prefixLength && Supported(next, chars) && |next| <= prefixLength &&
    Repr(end, chars, prefixLength) == v - (if wide then 0 else 1) &&
    Repr(next, chars, prefixLength) == Repr(end, chars, prefixLength) + 1
  }

  /** A wider bin ends at v itself; `next_value` gives the next bin's first string. */
  lemma WideStep(chars: string, prefixLength: nat, v: nat, end: string, next: string)
    requires SH.SettingsAreValid(chars, prefixLength) && 0 < v < MaxRepr(|chars|, prefixLength)
    requires end == ToStr(v, chars, prefixLength) && next == Next(end, chars, prefixLength)
    ensures BoundsAfter(end, next, v, true, chars, prefixLength)
  {
    ReprOfToStr(v, chars, prefixLength);
    ReprOfLastString(chars, prefixLength);
    NextIncrementsRepr(end, chars, prefixLength);
    NextLength(end, chars, prefixLength);
  }

  /** A narrower bin ends at the string before v, its `previous_value`; v begins the next bin. */
  lemma NarrowStep(chars: string, prefixLength: nat, v: nat, end: string, next: string)
    requires SH.SettingsAreValid(chars, prefixLength) && 0 < v <= MaxRepr(|chars|, prefixLength)
    requires next == ToStr(v, chars, prefixLength) && end == PreviousValue(next, chars, prefixLength)
    ensures BoundsAfter(end, next, v, false, chars, prefixLength)
  {
    ReprOfToStr(v, chars, prefixLength);
    PreviousIsReprMinusOne(next, chars, prefixLength);
  }

  /** The scan of `value_counts` from its front for the first string past the end of a bin. */
  method ScanBin(vc: seq<StringCount>, end: string) returns (j: nat)
    ensures j <= |vc| && (forall k :: 0 <= k < j ==> SH.LexLeq(vc[k].0, end))
    ensures j < |vc| ==> !SH.LexLeq(vc[j].0, end)
  {
    j := 0;
    while j < |vc| && SH.LexLeq(vc[j].0, end)
      invariant j <= |vc|
      invariant forall k :: 0 <= k < j ==> SH.LexLeq(vc[k].0, end)
    {
      j := j + 1;
    }
  }

  /** The scan for the end of a bin stops after the values whose representation is below the next begin. */
  lemma ScanStops(vc: seq<StringCount>, chars: string, prefixLength: nat, end: string, v: int, j: nat)
    requires SH.SettingsAreValid(chars, prefixLength) && Encodable(vc, chars, prefixLength)
    requires Supported(end, chars) && |end| <= prefixLength && j <= |vc| && v == Repr(end, chars, prefixLength) + 1
    requires forall k :: 0 <= k < j ==> SH.LexLeq(vc[k].0, end)
    requires j < |vc| ==> !SH.LexLeq(vc[j].0, end)
    ensures j == ValuesBelow(Reprs(vc, chars, prefixLength), v)
  {
    forall k | 0 <= k < j ensures Reprs(vc, chars, prefixLength)[k].0 < Repr(end, chars, prefixLength) + 1 {
      SH.LexLeqIffReprLeq(vc[k].0, end, chars, prefixLength);
    }
    if j < |vc| {
      SH.LexLeqIffReprLeq(vc[j].0, end, chars, prefixLength);
    }
    ValuesBelowIs(Reprs(vc, chars, prefixLength), v, j);
  }

  /** Recording the run [b, e) as the next bin keeps every bin holding its run. */
  lemma ExtendBins(vc: seq<ValueCount>, min: int, binWidth: int, extra: nat,
                   counts: seq<nat>, distinctCounts: seq<nat>, id: nat, b: nat, e: nat,
                   counts': seq<nat>, distinctCounts': seq<nat>)
    requires |counts| == id && |distinctCounts| == id
    requires forall i :: 0 <= i < id ==> EW.BinHolds(vc, min, binWidth, extra, counts, distinctCounts, i)
    requires b == EW.BinStart(vc, min, binWidth, extra, id) && e == EW.BinStart(vc, min, binWidth, extra, id + 1)
    requires b <= e <= |vc|
    requires counts' == counts + [Total(vc[b..e])] && distinctCounts' == distinctCounts + [e - b]
    ensures forall i :: 0 <= i < id + 1 ==> EW.BinHolds(vc, min, binWidth, extra, counts', distinctCounts', i)
  {
    forall i | 0 <= i < id + 1
      ensures EW.BinHolds(vc, min, binWidth, extra, counts', distinctCounts', i)
    {
      if i < id {
        assert EW.BinHolds(vc, min, binWidth, extra, counts, distinctCounts, i);
      }
    }
  }

  /** The scan for the end of bin id stops at or after the bin's first value. */
  lemma ScanPassesBegin(vc: seq<StringCount>, chars: string, prefixLength: nat, min: int, binWidth: int,
                        extra: nat, id: nat, b: nat, end: string, j: nat)
    requires SH.SettingsAreValid(chars, prefixLength) && Encodable(vc, chars, prefixLength)
    requires Supported(end, chars) && |end| <= prefixLength && j <= |vc|
    requires Repr(end, chars, prefixLength) + 1 == EW.BinBegin(min, binWidth, extra, id + 1)
    requires EW.BinBegin(min, binWidth, extra, id) <= EW.BinBegin(min, binWidth, extra, id + 1)
    requires forall k :: 0 <= k < j ==> SH.LexLeq(vc[k].0, end)
    requires j < |vc| ==> !SH.LexLeq(vc[j].0, end)
    requires b == EW.BinStart(Reprs(vc, chars, prefixLength), min, binWidth, extra, id)
    ensures b <= j
  {
    ScanStops(vc, chars, prefixLength, end, EW.BinBegin(min, binWidth, extra, id + 1), j);
    ValuesBelowMonotone(Reprs(vc, chars, prefixLength), EW.BinBegin(min, binWidth, extra, id),
                        EW.BinBegin(min, binWidth, extra, id + 1));
  }

  /**
   * A scan that stops after the strings up to the last string of bin id has found the next bin's
   * begin, and the run it passed extends the bins built so far by bin id: the loop state of bin id + 1.
   */
  lemma ScannedBinHolds(vc: seq<StringCount>, chars: string, prefixLength: nat, min: int, binWidth: int,
                        extra: nat, counts: seq<nat>, distinctCounts: seq<nat>, id: nat, b: nat, end: string, j: nat,
                        counts': seq<nat>, distinctCounts': seq<nat>, next: string)
    requires SH.SettingsAreValid(chars, prefixLength) && Encodable(vc, chars, prefixLength)
    requires Supported(end, chars) && |end| <= prefixLength && j <= |vc|
    requires Supported(next, chars) && |next| <= prefixLength
    requires Repr(next, chars, prefixLength) == EW.BinBegin(min, binWidth, extra, id + 1)
    requires Repr(end, chars, prefixLength) + 1 == EW.BinBegin(min, binWidth, extra, id + 1)
    requires EW.BinBegin(min, binWidth, extra, id) <= EW.BinBegin(min, binWidth, extra, id + 1)
    requires forall k :: 0 <= k < j ==> SH.LexLeq(vc[k].0, end)
    requires j < |vc| ==> !SH.LexLeq(vc[j].0, end)
    requires |counts| == id && |distinctCounts| == id
    requires b == EW.BinStart(Reprs(vc, chars, prefixLength), min, binWidth, extra, id)
    requires forall i :: 0 <= i < id ==>
      EW.BinHolds(Reprs(vc, chars, prefixLength), min, binWidth, extra, counts, distinctCounts, i)
    requires b <= j ==> counts' == counts + [StringTotal(vc[b..j])] && distinctCounts' == distinctCounts + [j - b]
    ensures b <= j && BinLoop(vc, chars, prefixLength, min, binWidth, extra, id + 1, next, j, counts', distinctCounts')
  {
    var rvc := Reprs(vc, chars, prefixLength);
    ScanStops(vc, chars, prefixLength, end, EW.BinBegin(min, binWidth, extra, id + 1), j);
    ValuesBelowMonotone(rvc, EW.BinBegin(min, binWidth, extra, id), EW.BinBegin(min, binWidth, extra, id + 1));
    StringTotalIsTotal(vc, rvc, b, j);
    ExtendBins(rvc, min, binWidth, extra, counts, distinctCounts, id, b, j, counts', distinctCounts');
  }

  /** Bins holding their runs of the ranges cut from [first value, last value] are the bin stats. */
  lemma LoopBuildsStats(vc: seq<ValueCount>, maxNumBins: nat, numBins: nat, binWidth: int, e: EW.Histogram)
    requires |vc| > 0 && e.min == vc[0].0 && e.max == vc[|vc| - 1].0 && e.min <= e.max
    requires numBins == EW.NumBinsFor(e.max - e.min + 1, maxNumBins) > 0
    requires binWidth == (e.max - e.min + 1) / numBins && e.numBinsWithLargerRange == (e.max - e.min + 1) % numBins
    requires |e.counts| == numBins && |e.distinctCounts| == numBins
    requires EW.BinsOf(vc, e.min, numBins, binWidth, e.numBinsWithLargerRange, e.counts, e.distinctCounts)
    ensures EW.IsBinStatsOf(vc, maxNumBins, e)
  {
  }

  /**
   * One step of the bin loop: the string `bin_width` representations after the bin's begin, and from
   * it the bin's last string and the next bin's first, through `previous_value` for a narrower bin and
   * `next_value` for a wider one. Converting a representation past the last string fails the
   * conversion's `DebugAssert`.
   */
  method BinBounds(beginValue: string, binWidth: nat, wide: bool, chars: string, prefixLength: nat)
    returns (r: Result<(string, string)>)
    requires SH.SettingsAreValid(chars, prefixLength) && Supported(beginValue, chars) && |beginValue| <= prefixLength
    requires binWidth >= 1
    requires wide ==> Repr(beginValue, chars, prefixLength) + binWidth < MaxRepr(|chars|, prefixLength)
    ensures r.Failure? <==> Repr(beginValue, chars, prefixLength) + binWidth > MaxRepr(|chars|, prefixLength)
    ensures r.Success? ==> BoundsAfter(r.value.0, r.value.1, Repr(beginValue, chars, prefixLength) + binWidth, wide,
                                       chars, prefixLength)
  {
    var numCurrentBeginValue := Repr(beginValue, chars, prefixLength);
    var v := numCurrentBeginValue + binWidth;
    if v > MaxRepr(|chars|, prefixLength) {
      return Failure("Value is not in valid range for supported_characters and string_prefix_length.");
    }
    var nextBeginValue := ToStr(v, chars, prefixLength);
    var currentEndValue := PreviousValue(nextBeginValue, chars, prefixLength);
    if wide {
      currentEndValue := nextBeginValue;
      nextBeginValue := Next(nextBeginValue, chars, prefixLength);
      WideStep(chars, prefixLength, v, currentEndValue, nextBeginValue);
    } else {
      NarrowStep(chars, prefixLength, v, currentEndValue, nextBeginValue);
    }
    r := Success((currentEndValue, nextBeginValue));
  }

  /**
   * The state of the bin loop before bin `id`: its first string lies at the bin's begin, the scan
   * position at the bin's first value, and the `id` bins before it hold their counts.
   */
  predicate BinLoop(vc: seq<StringCount>, chars: string, prefixLength: nat, min: int, binWidth: int, extra: nat,
                    id: nat, beginValue: string, beginIndex: nat, counts: seq<nat>, distinctCounts: seq<nat>)
    requires SH.SettingsAreValid(chars, prefixLength) && Encodable(vc, chars, prefixLength)
  {
    Supported(beginValue, chars) && |beginValue| <= prefixLength &&
    Repr(beginValue, chars, prefixLength) == EW.BinBegin(min, binWidth, extra, id) &&
    beginIndex == EW.BinStart(Reprs(vc, chars, prefixLength), min, binWidth, extra, id) &&
    |counts| == id && |distinctCounts| == id &&
    forall i :: 0 <= i < id ==> EW.BinHolds(Reprs(vc, chars, prefixLength), min, binWidth, extra, counts, distinctCounts, i)
  }

  /** Before the first bin, the loop starts at min and the front of `value_counts`, with no bins. */
  lemma BinLoopStarts(vc: seq<StringCount>, chars: string, prefixLength: nat, binWidth: int, extra: nat)
    requires SH.SettingsAreValid(chars, prefixLength) && Encodable(vc, chars, prefixLength) && |vc| > 0
    ensures BinLoop(vc, chars, prefixLength, Repr(vc[0].0, chars, prefixLength), binWidth, extra, 0, vc[0].0, 0, [], [])
  {
    var rvc := Reprs(vc, chars, prefixLength);
    assert rvc[0].0 == Repr(vc[0].0, chars, prefixLength);
  }

  /** After the last bin, the loop has built the bins of `value_counts`. */
  lemma BinLoopEnds(vc: seq<StringCount>, chars: string, prefixLength: nat, min: int, binWidth: int, extra: nat,
                    numBins: nat, beginValue: string, beginIndex: nat, counts: seq<nat>, distinctCounts: seq<nat>)
    requires SH.SettingsAreValid(chars, prefixLength) && Encodable(vc, chars, prefixLength)
    requires BinLoop(vc, chars, prefixLength, min, binWidth, extra, numBins, beginValue, beginIndex, counts, distinctCounts)
    ensures EW.BinsOf(Reprs(vc, chars, prefixLength), min, numBins, binWidth, extra, counts, distinctCounts)
  {
  }

  /**
   * One round of the bin loop: the bounds of bin `id` from its first string, the scan for its end,
   * and its count and distinct count appended. Only the last bin can fail, on a representation past
   * the last string.
   */
  method NextBin(vc: seq<StringCount>, chars: string, prefixLength: nat, range: nat, numBins: nat,
                 binWidth: nat, extra: nat, id: nat, beginValue: string, beginIndex: nat,
                 counts: seq<nat>, distinctCounts: seq<nat>)
    returns (r: Result<(string, nat, seq<nat>, seq<nat>)>)
    requires SH.SettingsAreValid(chars, prefixLength) && Encodable(vc, chars, prefixLength)
    requires |vc| > 0 && 0 < numBins <= range && id < numBins
    requires binWidth == range / numBins && extra == range % numBins
    requires Repr(vc[0].0, chars, prefixLength) + range - 1 <= MaxRepr(|chars|, prefixLength)
    requires BinLoop(vc, chars, prefixLength, Repr(vc[0].0, chars, prefixLength), binWidth, extra,
                     id, beginValue, beginIndex, counts, distinctCounts)
    ensures r.Failure? <==> id + 1 == numBins && Repr(vc[0].0, chars, prefixLength) + range > MaxRepr(|chars|, prefixLength)
    ensures r.Success? ==>
      (id + 1 == numBins ==> Repr(vc[0].0, chars, prefixLength) + range <= MaxRepr(|chars|, prefixLength)) &&
      BinLoop(vc, chars, prefixLength, Repr(vc[0].0, chars, prefixLength), binWidth, extra,
              id + 1, r.value.0, r.value.1, r.value.2, r.value.3)
  {
    ghost var rvc := Reprs(vc, chars, prefixLength);
    ghost var reprMin := Repr(vc[0].0, chars, prefixLength);
    BinStep(reprMin, range, numBins, id);
    var bounds := BinBounds(beginValue, binWidth, id < extra, chars, prefixLength);
    if bounds.Failure? {
      return Failure(bounds.error);
    }
    var (endValue, nextBeginValue) := bounds.value;
    ghost var nextBegin := EW.BinBegin(reprMin, binWidth, extra, id + 1);
    assert Repr(endValue, chars, prefixLength) + 1 == nextBegin;

    var nextBeginIndex := ScanBin(vc, endValue);
    ScanPassesBegin(vc, chars, prefixLength, reprMin, binWidth, extra, id, beginIndex, endValue, nextBeginIndex);
    var counts' := counts + [StringTotal(vc[beginIndex..nextBeginIndex])];
    var distinctCounts' := distinctCounts + [nextBeginIndex - beginIndex];
    ScannedBinHolds(vc, chars, prefixLength, reprMin, binWidth, extra, counts, distinctCounts,
                    id, beginIndex, endValue, nextBeginIndex, counts', distinctCounts', nextBeginValue);
    r := Success((nextBeginValue, nextBeginIndex, counts', distinctCounts'));
  }

  /**
   * The bin loop of the string `_get_bin_stats`: bin by bin, turn the representation `bin_width` past
   * the bin's begin into a string, derive the bin's last string and the next bin's first from it, and
   * scan `value_counts` from its front for the strings up to that last string. The representations
   * of the bins span [repr(min), repr(min) + range); converting the one past the last bin fails the
   * conversion's `DebugAssert` exactly when it is past the last string.
   */
  method FillBins(vc: seq<StringCount>, chars: string, prefixLength: nat, range: nat, numBins: nat)
    returns (r: Result<(seq<nat>, seq<nat>)>)
    requires SH.SettingsAreValid(chars, prefixLength) && Encodable(vc, chars, prefixLength)
    requires |vc| > 0 && 0 < numBins <= range
    requires Repr(vc[0].0, chars, prefixLength) + range - 1 <= MaxRepr(|chars|, prefixLength)
    ensures r.Failure? <==> Repr(vc[0].0, chars, prefixLength) + range > MaxRepr(|chars|, prefixLength)
    ensures r.Success? ==> EW.BinsOf(Reprs(vc, chars, prefixLength), Repr(vc[0].0, chars, prefixLength), numBins,
                                     range / numBins, range % numBins, r.value.0, r.value.1)
  {
    var min := vc[0].0;
    ghost var reprMin := Repr(min, chars, prefixLength);
    var binWidth := range / numBins;
    var numBinsWithLargerRange := range % numBins;

    var counts: seq<nat> := [];
    var distinctCounts: seq<nat> := [];
    var currentBeginValue := min;
    var currentBeginIndex := 0;
    var currentBinId := 0;
    BinLoopStarts(vc, chars, prefixLength, binWidth, numBinsWithLargerRange);
    while currentBinId < numBins
      invariant currentBinId <= numBins
      invariant currentBinId == numBins ==> reprMin + range <= MaxRepr(|chars|, prefixLength)
      invariant BinLoop(vc, chars, prefixLength, reprMin, binWidth, numBinsWithLargerRange,
                        currentBinId, currentBeginValue, currentBeginIndex, counts, distinctCounts)
    {
      var step := NextBin(vc, chars, prefixLength, range, numBins, binWidth, numBinsWithLargerRange, currentBinId,
                          currentBeginValue, currentBeginIndex, counts, distinctCounts);
      if step.Failure? {
        return Failure(step.error);
      }
      var (nextBeginValue, nextBeginIndex, counts', distinctCounts') := step.value;
      counts, distinctCounts := counts', distinctCounts';
      currentBeginValue := nextBeginValue;
      currentBeginIndex := nextBeginIndex;
      currentBinId := currentBinId + 1;
    }
    BinLoopEnds(vc, chars, prefixLength, reprMin, binWidth, numBinsWithLargerRange, numBins,
                currentBeginValue, currentBeginIndex, counts, distinctCounts);
    r := Success((counts, distinctCounts));
  }

  /**
   * `_get_bin_stats(value_counts, max_num_bins, supported_characters, string_prefix_length)` as
   * written: min and max are the first and last strings, the bins cut [repr(min), repr(max)] as the
   * integer histogram cuts its range, capped at the number of representations. The last step
   * converts repr(max) + 1, which fails exactly when max is the last string.
   */
  method GetBinStats(vc: seq<StringCount>, maxNumBins: nat, chars: string, prefixLength: nat)
    returns (r: Result<Histogram>)
    requires SH.SettingsAreValid(chars, prefixLength) && Encodable(vc, chars, prefixLength)
    requires |vc| > 0 && maxNumBins > 0
    ensures r.Failure? <==> Repr(vc[|vc| - 1].0, chars, prefixLength) == MaxRepr(|chars|, prefixLength)
    ensures r.Success? ==>
      r.value.min == vc[0].0 && r.value.max == vc[|vc| - 1].0 &&
      r.value.chars == chars && r.value.prefixLength == prefixLength && WellFormed(r.value) &&
      EW.IsBinStatsOf(Reprs(vc, chars, prefixLength), maxNumBins, View(r.value))
  {
    ghost var rvc := Reprs(vc, chars, prefixLength);
    ReprsSorted(vc, chars, prefixLength);
    var min := vc[0].0;
    var max := vc[|vc| - 1].0;
    var reprMin := Repr(min, chars, prefixLength);
    var reprMax := Repr(max, chars, prefixLength);
    ReprBound(max, chars, prefixLength);
    assert reprMin <= reprMax by {
      if |vc| > 1 { assert rvc[0].0 < rvc[|vc| - 1].0; }
    }
    var numBins := if maxNumBins <= reprMax - reprMin + 1 then maxNumBins else reprMax - reprMin + 1;
    var baseWidth := reprMax - reprMin + 1;
    var binWidth := baseWidth / numBins;
    var numBinsWithLargerRange := baseWidth % numBins;
    var bins := FillBins(vc, chars, prefixLength, baseWidth, numBins);
    if bins.Failure? {
      return Failure(bins.error);
    }
    var (counts, distinctCounts) := bins.value;
    var h := Histogram(min, max, counts, distinctCounts, numBinsWithLargerRange, chars, prefixLength);
    assert View(h) == EW.Histogram(reprMin, reprMax, counts, distinctCounts, numBinsWithLargerRange);
    LoopBuildsStats(rvc, maxNumBins, numBins, binWidth, View(h));
    EW.StatsAreWellFormed(rvc, maxNumBins, View(h));
    r := Success(h);
  }

  /**
   * `_get_bin_stats` with the bins computed on representations first, so that no representation
   * past max is converted: the same bins, for every sorted input.
   */
  method GetBinStatsCorrected(vc: seq<StringCount>, maxNumBins: nat, chars: string, prefixLength: nat)
    returns (h: Histogram)
    requires SH.SettingsAreValid(chars, prefixLength) && Encodable(vc, chars, prefixLength)
    requires |vc| > 0 && maxNumBins > 0
    ensures h.min == vc[0].0 && h.max == vc[|vc| - 1].0 && h.chars == chars && h.prefixLength == prefixLength
    ensures WellFormed(h) && EW.IsBinStatsOf(Reprs(vc, chars, prefixLength), maxNumBins, View(h))
  {
    var rvc := Reprs(vc, chars, prefixLength);
    ReprsSorted(vc, chars, prefixLength);
    if |vc| > 1 {
      assert rvc[0].0 < rvc[|vc| - 1].0;
    }
    var e := EW.GetBinStats(rvc, maxNumBins);
    EW.StatsAreWellFormed(rvc, maxNumBins, e);
    h := Histogram(vc[0].0, vc[|vc| - 1].0, e.counts, e.distinctCounts, e.numBinsWithLargerRange, chars, prefixLength);
    assert View(h) == e;
  }

  /** The bin stats of given value counts are unique, so the two builders agree wherever both succeed. */
  lemma BinStatsUnique(vc: seq<ValueCount>, maxNumBins: nat, e: EW.Histogram, e': EW.Histogram)
    requires |vc| > 0 && EW.IsBinStatsOf(vc, maxNumBins, e) && EW.IsBinStatsOf(vc, maxNumBins, e')
    ensures e == e'
  {
    var n := |e.counts|;
    var range := e.max - e.min + 1;
    forall i | 0 <= i < n ensures e.counts[i] == e'.counts[i] && e.distinctCounts[i] == e'.distinctCounts[i] {
      assert EW.BinHolds(vc, e.min, range / n, range % n, e.counts, e.distinctCounts, i);
      assert EW.BinHolds(vc, e.min, range / n, range % n, e'.counts, e'.distinctCounts, i);
    }
  }

  /** The as-written `_get_bin_stats` fails on a column whose largest value is the last string. */
  lemma GetBinStatsFailsOnLastString()
    ensures SH.SettingsAreValid("abcdefghij", 1) && Encodable([("a", 3), ("j", 1)], "abcdefghij", 1)
    ensures Repr("j", "abcdefghij", 1) == MaxRepr(10, 1)
  {
    ExampleSettings();
    assert Repr("a", "abcdefghij", 1) == 1;
    assert Repr("j", "abcdefghij", 1) == 10;
    LexLessIffReprLess("a", "j", "abcdefghij", 1);
  }
}
