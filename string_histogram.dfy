/**
 * The `std::string` specialisations of `AbstractHistogram`: the constructor's checks of the
 * supported characters and the prefix length, `can_prune` with its LIKE and NOT LIKE rules,
 * `estimate_cardinality`, `estimate_selectivity` and `estimate_distinct_count`.
 *
 * A string histogram keeps its bins as strings, but everything it computes about them goes
 * through the number representation of HistogramUtils, which orders strings of at most
 * `string_prefix_length` characters exactly as `std::string` comparison does
 * (`LexLessIffReprLess`). The model therefore keeps the bins as representations (`Bins` of
 * AbstractHistogram) and maps every search value onto its representation.
 */
module StringHistogram {
  import opened Wrappers
  import opened Arithmetic
  import opened HistogramCommon
  import opened HistogramUtils
  import A = AbstractHistogram
  import P = AbstractHistogramProperties

  const TWO_TO_63: int := 0x8000_0000_0000_0000

  // -------------------------------------------------------------------------------------------------
  // Constructor checks

  /**
   * What the constructor's checks are there to ensure: a positive prefix length, at least two
   * characters, `(|chars| + 1)^prefixLength` below 2^63, and a consecutive ascending range.
   */
  predicate SettingsAreValid(chars: string, prefixLength: nat)
  {
    prefixLength > 0 && |chars| > 1 && Pow(|chars| + 1, prefixLength) < TWO_TO_63 && Consecutive(chars)
  }

  /** The checks as written: the power is computed by `ipow`, which wraps around at 2^64. */
  predicate SettingsAreValidAsWritten(chars: string, prefixLength: nat)
  {
    prefixLength > 0 && |chars| > 1 && Pow(|chars| + 1, prefixLength) % UINT64_MODULUS < TWO_TO_63 &&
    Consecutive(chars)
  }

  lemma {:induction false} PowMonotone(a: nat, b: nat, e: nat)
    requires a <= b
    ensures Pow(a, e) <= Pow(b, e)
    decreases e
  {
    if e > 0 {
      PowMonotone(a, b, e - 1);
      MulMonotone(a, b, Pow(a, e - 1));
      assert a * Pow(a, e - 1) <= b * Pow(a, e - 1);
      assert b * Pow(a, e - 1) <= b * Pow(b, e - 1) by {
        MulMonotone(Pow(a, e - 1), Pow(b, e - 1), b);
      }
    }
  }

  /** The representation of the last string is below (n + 1)^L. */
  lemma {:induction false} MaxReprBelowPow(n: nat, prefixLength: nat)
    ensures MaxRepr(n, prefixLength) + 1 <= Pow(n + 1, prefixLength)
    decreases prefixLength
  {
    if prefixLength > 0 {
      var l := prefixLength;
      MaxReprBelowPow(n, l - 1);
      PowMonotone(n, n + 1, l - 1);
      MulMonotone(Pow(n, l - 1), Pow(n + 1, l - 1), n);
      assert Pow(n, l) == n * Pow(n, l - 1);
      assert Pow(n + 1, l) == Pow(n + 1, l - 1) + n * Pow(n + 1, l - 1);
    }
  }

  /**
   * The valid settings are what the conversions need, and every representation of a string over
   * them, the largest one included, fits into a signed 64-bit integer.
   */
  lemma ValidSettingsFit(chars: string, prefixLength: nat)
    requires SettingsAreValid(chars, prefixLength)
    ensures ValidCharacters(chars) && prefixLength > 0
    ensures MaxRepr(|chars|, prefixLength) < TWO_TO_63
    ensures forall s :: Supported(s, chars) && |s| <= prefixLength ==> Repr(s, chars, prefixLength) < TWO_TO_63
  {
    MaxReprBelowPow(|chars|, prefixLength);
    forall s | Supported(s, chars) && |s| <= prefixLength
      ensures Repr(s, chars, prefixLength) < TWO_TO_63
    {
      ReprBound(s, chars, prefixLength);
    }
  }

  /**
   * With the digits as characters and prefix length 20 the wrapped power 11^20 mod 2^64 lies below
   * 2^63, so the checks as written accept settings whose largest representation exceeds 2^64.
   */
  lemma SettingsAsWrittenAcceptOverflow()
    ensures SettingsAreValidAsWritten("0123456789", 20)
    ensures !SettingsAreValid("0123456789", 20)
    ensures MaxRepr(10, 20) >= UINT64_MODULUS
  {
    assert Pow(11, 1) == 11;
    assert Pow(11, 2) == 121;
    assert Pow(11, 3) == 1331;
    assert Pow(11, 4) == 14641;
    assert Pow(11, 5) == 161051;
    assert Pow(11, 6) == 1771561;
    assert Pow(11, 7) == 19487171;
    assert Pow(11, 8) == 214358881;
    assert Pow(11, 9) == 2357947691;
    assert Pow(11, 10) == 25937424601;
    assert Pow(11, 11) == 285311670611;
    assert Pow(11, 12) == 3138428376721;
    assert Pow(11, 13) == 34522712143931;
    assert Pow(11, 14) == 379749833583241;
    assert Pow(11, 15) == 4177248169415651;
    assert Pow(11, 16) == 45949729863572161;
    assert Pow(11, 17) == 505447028499293771;
    assert Pow(11, 18) == 5559917313492231481;
    assert Pow(11, 19) == 61159090448414546291;
    assert Pow(11, 20) == 672749994932560009201;
    assert Pow(11, 20) % UINT64_MODULUS == 8667208279016151025;
    assert Pow(10, 1) == 10;
    assert Pow(10, 2) == 100;
    assert Pow(10, 3) == 1000;
    assert Pow(10, 4) == 10000;
    assert Pow(10, 5) == 100000;
    assert Pow(10, 6) == 1000000;
    assert Pow(10, 7) == 10000000;
    assert Pow(10, 8) == 100000000;
    assert Pow(10, 9) == 1000000000;
    assert Pow(10, 10) == 10000000000;
    assert Pow(10, 11) == 100000000000;
    assert Pow(10, 12) == 1000000000000;
    assert Pow(10, 13) == 10000000000000;
    assert Pow(10, 14) == 100000000000000;
    assert Pow(10, 15) == 1000000000000000;
    assert Pow(10, 16) == 10000000000000000;
    assert Pow(10, 17) == 100000000000000000;
    assert Pow(10, 18) == 1000000000000000000;
    assert Pow(10, 19) == 10000000000000000000;
    assert Pow(10, 20) == 100000000000000000000;
    assert MaxRepr(10, 20) >= Pow(10, 20);
  }

  // -------------------------------------------------------------------------------------------------
  // The histogram

  /** A string histogram: its settings and its bins, as representations. */
  datatype Histogram = Histogram(chars: string, prefixLength: nat, bins: A.Bins)

  /** Valid settings, well-formed bins, and bin bounds that are representations of strings. */
  predicate WellFormed(h: Histogram)
  {
    SettingsAreValid(h.chars, h.prefixLength) && A.WellFormed(h.bins) &&
    0 <= A.Min(h.bins) && A.Max(h.bins) <= MaxRepr(|h.chars|, h.prefixLength)
  }

  /** `_convert_string_to_number_representation` of a supported string. */
  function Representation(h: Histogram, s: string): nat
    requires WellFormed(h) && Supported(s, h.chars)
  {
    Repr(s, h.chars, h.prefixLength)
  }

  /** `min()` as a string. */
  function MinString(h: Histogram): (s: string)
    requires WellFormed(h)
    ensures |s| <= h.prefixLength && Supported(s, h.chars) && Representation(h, s) == A.Min(h.bins)
  {
    ReprOfToStr(A.Min(h.bins), h.chars, h.prefixLength);
    ToStr(A.Min(h.bins), h.chars, h.prefixLength)
  }

  /** `max()` as a string. */
  function MaxString(h: Histogram): (s: string)
    requires WellFormed(h)
    ensures |s| <= h.prefixLength && Supported(s, h.chars) && Representation(h, s) == A.Max(h.bins)
  {
    ReprOfToStr(A.Max(h.bins), h.chars, h.prefixLength);
    ToStr(A.Max(h.bins), h.chars, h.prefixLength)
  }

  // -------------------------------------------------------------------------------------------------
  // Comparing search values with the bins

  /**
   * Where `std::string` comparison places a supported string among the strings within the prefix
   * length, which the bin bounds are: a string within the prefix length sits at twice its
   * representation, a longer one just above its prefix (`PositionOrder`).
   */
  function Position(h: Histogram, s: string): int
    requires WellFormed(h) && Supported(s, h.chars)
  {
    if |s| <= h.prefixLength then 2 * Representation(h, s)
    else
      PrefixSupported(s, h.prefixLength, h.chars);
      2 * Representation(h, s[..h.prefixLength]) + 1
  }

  function Doubled(s: seq<int>): (d: seq<int>)
    ensures |d| == |s| && forall i {:trigger d[i]} :: 0 <= i < |s| ==> d[i] == 2 * s[i]
  {
    seq(|s|, i requires 0 <= i < |s| => 2 * s[i])
  }

  /** `d` is `b` with every bin bound doubled and the counts unchanged. */
  predicate IsDoubling(b: A.Bins, d: A.Bins)
  {
    A.WellFormed(b) && A.WellFormed(d) && |d.mins| == |b.mins| && |d.maxs| == |b.maxs| &&
    d.counts == b.counts && d.distinctCounts == b.distinctCounts &&
    d.totalCount == b.totalCount && d.totalCountDistinct == b.totalCountDistinct &&
    (forall i :: 0 <= i < |b.mins| ==> d.mins[i] == 2 * b.mins[i]) &&
    (forall i :: 0 <= i < |b.maxs| ==> d.maxs[i] == 2 * b.maxs[i])
  }

  /** The bins with every bound at its position: the bins as the string comparisons of the lookups see them. */
  function Positions(h: Histogram): (d: A.Bins)
    requires WellFormed(h)
    ensures IsDoubling(h.bins, d)
  {
    A.Bins(Doubled(h.bins.mins), Doubled(h.bins.maxs), h.bins.counts, h.bins.distinctCounts,
           h.bins.totalCount, h.bins.totalCountDistinct)
  }

  lemma DoublingBounds(b: A.Bins, d: A.Bins)
    requires IsDoubling(b, d)
    ensures A.NumBins(d) == A.NumBins(b) && A.Min(d) == 2 * A.Min(b) && A.Max(d) == 2 * A.Max(b)
    ensures A.TotalCount(d) == A.TotalCount(b) && A.TotalCountDistinct(d) == A.TotalCountDistinct(b)
  {
  }

  /** `std::lower_bound` finds the same position in sequences that compare alike with their values. */
  lemma {:induction false} LowerBoundsAgree(s: seq<int>, t: seq<int>, v: int, w: int)
    requires |s| == |t| && forall k :: 0 <= k < |s| ==> (s[k] >= v <==> t[k] >= w)
    ensures LowerBound(s, v) == LowerBound(t, w)
    decreases |s|
  {
    if |s| > 0 {
      LowerBoundsAgree(s[1..], t[1..], v, w);
    }
  }

  lemma {:induction false} UpperBoundsAgree(s: seq<int>, t: seq<int>, v: int, w: int)
    requires |s| == |t| && forall k :: 0 <= k < |s| ==> (s[k] > v <==> t[k] > w)
    ensures UpperBound(s, v) == UpperBound(t, w)
    decreases |s|
  {
    if |s| > 0 {
      UpperBoundsAgree(s[1..], t[1..], v, w);
    }
  }

  lemma {:induction false} UpperBoundIsLowerBound(s: seq<int>, t: seq<int>, v: int, w: int)
    requires |s| == |t| && forall k :: 0 <= k < |s| ==> (s[k] >= v <==> t[k] > w)
    ensures LowerBound(s, v) == UpperBound(t, w)
    decreases |s|
  {
    if |s| > 0 {
      UpperBoundIsLowerBound(s[1..], t[1..], v, w);
    }
  }

  /** At an even position the lookups find what they find at the representation. */
  lemma DoubledLookups(b: A.Bins, d: A.Bins, r: int)
    requires IsDoubling(b, d)
    ensures A.BinForValue(d, 2 * r) == A.BinForValue(b, r)
    ensures A.UpperBoundForValue(d, 2 * r) == A.UpperBoundForValue(b, r)
  {
    LowerBoundsAgree(b.maxs, d.maxs, r, 2 * r);
    UpperBoundsAgree(b.maxs, d.maxs, r, 2 * r);
  }

  /** At the position of a representation the lookups on the positions find what they find on the bins. */
  lemma PositionLookups(h: Histogram, r: int)
    requires WellFormed(h)
    ensures A.BinForValue(Positions(h), 2 * r) == A.BinForValue(h.bins, r)
    ensures A.UpperBoundForValue(Positions(h), 2 * r) == A.UpperBoundForValue(h.bins, r)
  {
    DoubledLookups(h.bins, Positions(h), r);
  }

  /** Just above the representation r both lookups find the first bin reaching r + 1. */
  lemma OddLookups(b: A.Bins, d: A.Bins, r: int)
    requires IsDoubling(b, d)
    ensures LowerBound(d.maxs, 2 * r + 1) == LowerBound(b.maxs, r + 1)
    ensures UpperBound(d.maxs, 2 * r + 1) == LowerBound(b.maxs, r + 1)
  {
    LowerBoundsAgree(b.maxs, d.maxs, r + 1, 2 * r + 1);
    UpperBoundIsLowerBound(b.maxs, d.maxs, r + 1, 2 * r + 1);
  }

  lemma {:induction false} LexLessTransitive(s: string, t: string, u: string)
    requires LexLess(s, t) && LexLess(t, u)
    ensures LexLess(s, u)
    decreases |s|
  {
    if s != "" && s[0] == t[0] && t[0] == u[0] {
      LexLessTransitive(s[1..], t[1..], u[1..]);
    }
  }

  lemma {:induction false} LexLessIrreflexive(s: string)
    ensures !LexLess(s, s)
    decreases |s|
  {
    if s != "" {
      LexLessIrreflexive(s[1..]);
    }
  }

  lemma LexLeqTransitive(s: string, t: string, u: string)
    requires LexLeq(s, t) && LexLeq(t, u)
    ensures LexLeq(s, u)
  {
    if s != t && t != u {
      LexLessTransitive(s, t, u);
    }
  }

  /**
   * A string longer than L against a string of at most L characters: it is below exactly the
   * strings its L-character prefix is below, and above the strings up to and including that prefix.
   */
  lemma {:induction false} LongStringOrder(s: string, t: string, prefixLength: nat)
    requires |t| <= prefixLength < |s|
    ensures LexLess(s, t) <==> LexLess(s[..prefixLength], t)
    ensures LexLess(t, s) <==> LexLeq(t, s[..prefixLength])
    decreases prefixLength
  {
    var p := s[..prefixLength];
    if t != "" {
      assert p[0] == s[0];
      assert p[1..] == s[1..][..prefixLength - 1];
      LongStringOrder(s[1..], t[1..], prefixLength - 1);
      assert t == [t[0]] + t[1..] && p == [p[0]] + p[1..];
    }
  }

  /** Against a string within the prefix length, positions order strings as `std::string` does. */
  lemma PositionOrder(h: Histogram, s: string, t: string)
    requires WellFormed(h) && Supported(s, h.chars) && Supported(t, h.chars) && |t| <= h.prefixLength
    ensures LexLess(s, t) <==> Position(h, s) < Position(h, t)
    ensures LexLess(t, s) <==> Position(h, t) < Position(h, s)
    ensures s == t <==> Position(h, s) == Position(h, t)
  {
    if |s| <= h.prefixLength {
      LexLessIffReprLess(s, t, h.chars, h.prefixLength);
      LexLessIffReprLess(t, s, h.chars, h.prefixLength);
      LexTotal(s, t);
    } else {
      var p := s[..h.prefixLength];
      PrefixSupported(s, h.prefixLength, h.chars);
      LongStringOrder(s, t, h.prefixLength);
      LexLessIffReprLess(p, t, h.chars, h.prefixLength);
      LexLeqIffReprLeq(t, p, h.chars, h.prefixLength);
    }
  }

  /** A smaller position always means a smaller string, whatever the lengths. */
  lemma PositionLessIsLexLess(h: Histogram, s: string, t: string)
    requires WellFormed(h) && Supported(s, h.chars) && Supported(t, h.chars)
    requires Position(h, s) < Position(h, t)
    ensures LexLess(s, t)
  {
    var l := h.prefixLength;
    if |t| <= l {
      PositionOrder(h, s, t);
    } else if |s| <= l {
      PositionOrder(h, t, s);
    } else {
      var p, q := s[..l], t[..l];
      PrefixSupported(s, l, h.chars);
      PrefixSupported(t, l, h.chars);
      LexLessIffReprLess(p, q, h.chars, l);
      LongStringOrder(s, q, l);
      LongStringOrder(t, q, l);
      LexLessTransitive(s, q, t);
    }
  }

  // -------------------------------------------------------------------------------------------------
  // Search values and patterns

  /** The characters a search value may hold: the supported ones, and `_` and `%` for (NOT) LIKE. */
  predicate Allowed(pred: A.PredicateCondition, value: string, chars: string)
  {
    forall i :: 0 <= i < |value| ==>
      value[i] in chars || ((pred == A.Like || pred == A.NotLike) && (value[i] == '_' || value[i] == '%'))
  }

  lemma AllowedIsSupported(pred: A.PredicateCondition, value: string, chars: string)
    requires pred != A.Like && pred != A.NotLike
    ensures Allowed(pred, value, chars) <==> Supported(value, chars)
  {
  }

  /** A pattern with one of the LIKE wildcards: `%` matches any string, `_` any one character. */
  predicate ContainsWildcard(pattern: string)
  {
    '%' in pattern || '_' in pattern
  }

  /** `find`: the first position of `c` in `s`, |s| if there is none. */
  function IndexOf(s: string, c: char): (r: nat)
    ensures r <= |s| && (r < |s| <==> c in s)
    ensures r < |s| ==> s[r] == c
    ensures forall k :: 0 <= k < r ==> s[k] != c
  {
    if s == "" then 0
    else if s[0] == c then 0
    else
      var r := 1 + IndexOf(s[1..], c);
      assert forall k :: 1 <= k < |s| ==> s[k] == s[1..][k - 1];
      r
  }

  /** The first position of either wildcard, |s| if there is none. */
  function IndexOfWildcard(s: string): (r: nat)
    ensures r <= |s| && (r < |s| <==> ContainsWildcard(s))
    ensures forall k :: 0 <= k < r ==> s[k] != '%' && s[k] != '_'
  {
    Min(IndexOf(s, '%'), IndexOf(s, '_'))
  }

  /** SQL LIKE: `%` matches any (possibly empty) string, `_` any single character. */
  predicate LikeMatch(x: string, pattern: string)
    decreases |pattern|, |x|
  {
    if pattern == "" then x == ""
    else if pattern[0] == '%' then LikeMatch(x, pattern[1..]) || (x != "" && LikeMatch(x[1..], pattern))
    else x != "" && (pattern[0] == '_' || pattern[0] == x[0]) && LikeMatch(x[1..], pattern[1..])
  }

  /** `string(n, supported_characters.back())` */
  function LastString(h: Histogram, n: nat): string
    requires WellFormed(h)
  {
    Repeat(h.chars[|h.chars| - 1], n)
  }

  // -------------------------------------------------------------------------------------------------
  // can_prune

  /**
   * The rule for a prefix search in `[lo, upper)`: the prefix lies above `max()`, the upper bound
   * at or below `min()`, or both fall into the same gap between bins.
   */
  predicate PrefixRangePrunes(h: Histogram, lo: nat, upper: nat)
    requires WellFormed(h)
  {
    lo > A.Max(h.bins) || upper <= A.Min(h.bins) ||
    (A.BinForValue(h.bins, lo).None? && A.BinForValue(h.bins, upper).None? &&
     A.UpperBoundForValue(h.bins, lo) == A.UpperBoundForValue(h.bins, upper))
  }

  /**
   * The LIKE prefix rule as written: the search prefix is the pattern up to its first `%`, cut to
   * the prefix length; its upper bound is `next_value` at the prefix's own length, which fails on
   * an unsupported character and is the prefix itself when that consists of last characters only.
   */
  function LikePrefixPrunesAsWritten(h: Histogram, pattern: string): Result<bool>
    requires WellFormed(h)
  {
    var prefix := pattern[..Min(IndexOf(pattern, '%'), h.prefixLength)];
    if !Supported(prefix, h.chars) then Failure("Unsupported characters.")
    else Success(PrefixRangePrunes(h, Representation(h, prefix), Representation(h, Next(prefix, h.chars, |prefix|))))
  }

  /**
   * The LIKE prefix rule corrected: the search prefix ends at the first wildcard of either kind;
   * an empty prefix constrains nothing, and a prefix of last characters has no upper bound.
   */
  predicate LikePrefixPrunes(h: Histogram, pattern: string)
    requires WellFormed(h) && Allowed(A.Like, pattern, h.chars)
  {
    var prefix := pattern[..Min(IndexOfWildcard(pattern), h.prefixLength)];
    assert Supported(prefix, h.chars);
    if prefix == "" then false
    else if prefix == LastString(h, |prefix|) then Representation(h, prefix) > A.Max(h.bins)
    else PrefixRangePrunes(h, Representation(h, prefix), Representation(h, Next(prefix, h.chars, |prefix|)))
  }

  /**
   * The NOT LIKE prefix rule as written: the part of the pattern before its first `%` is a prefix
   * of both `min()` and `max()`, whatever follows that `%`.
   */
  predicate NotLikePrefixPrunesAsWritten(pattern: string, min: string, max: string)
  {
    '%' in pattern &&
    var prefix := pattern[..IndexOf(pattern, '%')];
    prefix == min[..Min(|prefix|, |min|)] && prefix == max[..Min(|prefix|, |max|)]
  }

  /** The NOT LIKE prefix rule corrected: only a pattern that is a prefix followed by `%`s matches everything in range. */
  predicate NotLikePrefixPrunes(pattern: string, min: string, max: string)
  {
    NotLikePrefixPrunesAsWritten(pattern, min, max) &&
    forall k :: IndexOf(pattern, '%') <= k < |pattern| ==> pattern[k] == '%'
  }

  /**
   * `can_prune` for strings: the characters of the search value are checked first; LIKE and NOT LIKE
   * have rules of their own and everything else is the rule of `_can_prune`, comparing strings, so
   * on positions. BETWEEN checks the characters of `value2` only after `value > max()` has failed to
   * prune, and compares `value2 < value` as strings, which two longer strings with the same prefix
   * can be although their positions are equal. The LIKE
   * and NOT LIKE rules are the corrected ones (`LikePrefixPrunes`, `NotLikePrefixPrunes`); the code
   * as written is `LikePrefixPrunesAsWritten` and `NotLikePrefixPrunesAsWritten`.
   */
  function CanPrune(h: Histogram, pred: A.PredicateCondition, value: string, value2: Option<string>)
    : (r: Result<bool>)
    requires WellFormed(h)
    ensures r.Success? ==> Allowed(pred, value, h.chars)
    decreases if pred == A.Like || pred == A.NotLike then 1 else 0
  {
    if !Allowed(pred, value, h.chars) then Failure("Unsupported characters.")
    else
      match pred
      case Like =>
        if !ContainsWildcard(value) then CanPrune(h, A.Equals, value, None)
        else if value[0] == '%' then Success(false)
        else if '%' in value then Success(LikePrefixPrunes(h, value))
        else Success(false)
      case NotLike =>
        if !ContainsWildcard(value) then CanPrune(h, A.NotEquals, value, None)
        else if value[0] == '%' then Success(value == "%")
        else Success(NotLikePrefixPrunes(value, MinString(h), MaxString(h)))
      case Between =>
        if value2.None? then Failure("Between operator needs two values.")
        else if Position(h, value) > A.Max(Positions(h)) then Success(true)
        else if !Supported(value2.value, h.chars) then Failure("Unsupported characters.")
        else
          Success(LexLess(value2.value, value) ||
                  A.PrunesBetween(Positions(h), Position(h, value), Position(h, value2.value)))
      case _ => A.CanPrune(Positions(h), pred, Position(h, value), None)
  }

  // -------------------------------------------------------------------------------------------------
  // Estimation

  /**
   * The LessThan case of `_estimate_cardinality` for strings: the range checks and the bin lookups
   * compare strings, so positions, while `_bin_share` divides the distance of the representations
   * from the bin's min by `_string_bin_width`. Capped at the total count.
   */
  function LessThanCardinality(h: Histogram, value: string): Result<real>
    requires WellFormed(h) && Supported(value, h.chars)
  {
    LessThanAt(h.bins, Positions(h), Position(h, value), Representation(h, value))
  }

  /**
   * The LessThan case of `_estimate_cardinality` with the range checks and lookups done at `p` in
   * `lookup`, bins laid out as `h`'s, and the share taken at `repr` in `h`.
   */
  function LessThanAt(h: A.Bins, lookup: A.Bins, p: int, repr: int): Result<real>
    requires A.WellFormed(h) && A.WellFormed(lookup) && A.NumBins(lookup) == A.NumBins(h)
  {
    var total := A.TotalCount(h) as real;
    if p > A.Max(lookup) then Success(total)
    else if p < A.Min(lookup) then Failure("Value smaller than min of histogram.")
    else
      match A.BinForValue(lookup, p)
      case Some(i) => Success(A.RealMin(A.PartOfBin(h, i, repr, A.BinCount(h, i)) + A.CountsBefore(h, i) as real, total))
      case None =>
        match A.UpperBoundForValue(lookup, p)
        case None => Failure("Bin index out of range.")
        case Some(u) => Success(A.RealMin(A.CountsBefore(h, u) as real, total))
  }

  /** The LessThan case of `estimate_distinct_count` for strings: the same over distinct counts, uncapped. */
  function DistinctLessThan(h: Histogram, value: string): Result<real>
    requires WellFormed(h) && Supported(value, h.chars)
  {
    DistinctLessThanAt(h.bins, Positions(h), Position(h, value), Representation(h, value))
  }

  function DistinctLessThanAt(h: A.Bins, lookup: A.Bins, p: int, repr: int): Result<real>
    requires A.WellFormed(h) && A.WellFormed(lookup) && A.NumBins(lookup) == A.NumBins(h)
  {
    if p > A.Max(lookup) then Success(A.TotalCountDistinct(h) as real)
    else
      match A.BinForValue(lookup, p)
      case Some(i) => Success(A.PartOfBin(h, i, repr, A.BinCountDistinct(h, i)) + A.DistinctCountsBefore(h, i) as real)
      case None =>
        match A.UpperBoundForValue(lookup, p)
        case None => Failure("Bin index out of range.")
        case Some(u) => Success(A.DistinctCountsBefore(h, u) as real)
  }

  /** The order of the recursion: LIKE reduces to Equals and LessThan, NOT LIKE to NotEquals and LIKE. */
  function Rank(pred: A.PredicateCondition): nat
  {
    match pred
    case Like => 1
    case NotLike => 2
    case _ => A.Rank(pred)
  }

  /** A LIKE pattern that is a prefix search: its only `%` is its last character. */
  predicate IsPrefixSearch(pattern: string)
  {
    |pattern| > 0 && pattern[|pattern| - 1] == '%' && multiset(pattern)['%'] == 1
  }

  /**
   * `estimate_cardinality` for strings, with `value2` passed on to `can_prune` as it was given and
   * none in the recursive calls, and without the dereference of an empty `value2` (see
   * `EstimateCardinalityAsWritten`). A prefix search
   * `p%` is estimated as LessThan(next_value(p)) - LessThan(p); other LIKE and NOT LIKE patterns
   * estimate `total_count()`.
   */
  function EstimateCardinality(h: Histogram, pred: A.PredicateCondition, value: string, value2: Option<string>)
    : Result<real>
    requires WellFormed(h)
    decreases Rank(pred)
  {
    var total := A.TotalCount(h.bins);
    match CanPrune(h, pred, value, value2)
    case Failure(e) => Failure(e)
    case Success(pruned) =>
      if pruned then Success(0.0)
      else
        match pred
        case Like =>
          if !ContainsWildcard(value) then EstimateCardinality(h, A.Equals, value, None)
          else if value == "%" then Success(total as real)
          else if IsPrefixSearch(value) then
            var prefix := value[..Min(|value| - 1, h.prefixLength)];
            if !Supported(prefix, h.chars) then Failure("Unsupported characters.")
            else A.Difference(EstimateCardinality(h, A.LessThan, Next(prefix, h.chars, |prefix|), None),
                              EstimateCardinality(h, A.LessThan, prefix, None))
          else Success(total as real)
        case NotLike =>
          if !ContainsWildcard(value) then EstimateCardinality(h, A.NotEquals, value, None)
          else if IsPrefixSearch(value) then A.Complement(total, EstimateCardinality(h, A.Like, value, None))
          else Success(total as real)
        case Equals => A.EqualsCardinality(Positions(h), Position(h, value))
        case NotEquals => A.Complement(total, EstimateCardinality(h, A.Equals, value, None))
        case LessThan => LessThanCardinality(h, value)
        case LessThanEquals => EstimateCardinality(h, A.LessThan, value + [h.chars[0]], None)
        case GreaterThanEquals => A.Complement(total, EstimateCardinality(h, A.LessThan, value, None))
        case GreaterThan => A.Complement(total, EstimateCardinality(h, A.LessThanEquals, value, None))
        case Between =>
          if value2.None? then Failure("Between operator needs two values.")
          else if LexLess(value2.value, value) then Success(0.0)
          else A.Difference(EstimateCardinality(h, A.LessThanEquals, value2.value, None),
                            EstimateCardinality(h, A.LessThan, value, None))
        case _ => Success(total as real)
  }

  /**
   * `estimate_cardinality` for strings as written: after the character check it dereferences
   * `value2`, and so does every recursive call, as none of them passes a second value.
   */
  function EstimateCardinalityAsWritten(h: Histogram, pred: A.PredicateCondition, value: string, value2: Option<string>)
    : Result<real>
    requires WellFormed(h)
  {
    var total := A.TotalCount(h.bins);
    if !Allowed(pred, value, h.chars) then Failure("Unsupported characters.")
    else if value2.None? then Failure("Dereference of an empty value2.")
    else
      match CanPrune(h, pred, value, value2)
      case Failure(e) => Failure(e)
      case Success(pruned) =>
        if pruned then Success(0.0)
        else
          match pred
          case Like =>
            if !ContainsWildcard(value) then Failure("Dereference of an empty value2.")
            else if value == "%" then Success(total as real)
            else if IsPrefixSearch(value) then
              var prefix := value[..Min(|value| - 1, h.prefixLength)];
              if !Supported(prefix, h.chars) then Failure("Unsupported characters.")
              else Failure("Dereference of an empty value2.")
            else Success(total as real)
          case NotLike =>
            if !ContainsWildcard(value) || IsPrefixSearch(value) then Failure("Dereference of an empty value2.")
            else Success(total as real)
          case Equals => A.EqualsCardinality(Positions(h), Position(h, value))
          case LessThan => LessThanCardinality(h, value)
          case In => Success(total as real)
          case IsNull => Success(total as real)
          case IsNotNull => Success(total as real)
          case _ => Failure("Dereference of an empty value2.")
  }

  /** `estimate_selectivity` for strings. */
  function EstimateSelectivity(h: Histogram, pred: A.PredicateCondition, value: string, value2: Option<string>)
    : Result<real>
    requires WellFormed(h)
  {
    match EstimateCardinality(h, pred, value, value2)
    case Failure(e) => Failure(e)
    case Success(c) =>
      if A.TotalCount(h.bins) == 0 then Failure("Division by a total count of zero.")
      else Success(c / A.TotalCount(h.bins) as real)
  }

  /** `estimate_distinct_count` for strings: the numeric template with the string `can_prune`. */
  function EstimateDistinctCount(h: Histogram, pred: A.PredicateCondition, value: string, value2: Option<string>)
    : Result<real>
    requires WellFormed(h)
    decreases A.Rank(pred)
  {
    var distinct := A.TotalCountDistinct(h.bins);
    match CanPrune(h, pred, value, value2)
    case Failure(e) => Failure(e)
    case Success(pruned) =>
      if pruned then Success(0.0)
      else
        match pred
        case Equals => Success(1.0)
        case NotEquals =>
          if A.BinForValue(Positions(h), Position(h, value)).None? then Success(distinct as real)
          else Success(distinct as real - 1.0)
        case LessThan => DistinctLessThan(h, value)
        case LessThanEquals => EstimateDistinctCount(h, A.LessThan, value + [h.chars[0]], None)
        case GreaterThanEquals => A.Complement(distinct, EstimateDistinctCount(h, A.LessThan, value, None))
        case GreaterThan => A.Complement(distinct, EstimateDistinctCount(h, A.LessThanEquals, value, None))
        case Between =>
          if value2.None? then Failure("Between operator needs two values.")
          else if LexLess(value2.value, value) then Success(0.0)
          else A.Difference(EstimateDistinctCount(h, A.LessThanEquals, value2.value, None),
                            EstimateDistinctCount(h, A.LessThan, value, None))
        case _ => Success(distinct as real)
  }

  // -------------------------------------------------------------------------------------------------
  // The character check and the LIKE special cases

  /** A character outside the allowed set fails the `Assert` of every entry point. */
  lemma UnsupportedCharactersFail(h: Histogram, pred: A.PredicateCondition, value: string, value2: Option<string>)
    requires WellFormed(h) && !Allowed(pred, value, h.chars)
    ensures CanPrune(h, pred, value, value2) == Failure("Unsupported characters.")
    ensures EstimateCardinality(h, pred, value, value2) == Failure("Unsupported characters.")
    ensures EstimateSelectivity(h, pred, value, value2) == Failure("Unsupported characters.")
    ensures EstimateDistinctCount(h, pred, value, value2) == Failure("Unsupported characters.")
  {
  }

  /** LIKE without a wildcard prunes and estimates exactly as Equals. */
  lemma LikeWithoutWildcardIsEquals(h: Histogram, value: string, value2: Option<string>)
    requires WellFormed(h) && !ContainsWildcard(value)
    ensures CanPrune(h, A.Like, value, value2) == CanPrune(h, A.Equals, value, None)
    ensures EstimateCardinality(h, A.Like, value, value2) == EstimateCardinality(h, A.Equals, value, None)
  {
    assert Allowed(A.Like, value, h.chars) <==> Allowed(A.Equals, value, h.chars);
  }

  /** NOT LIKE without a wildcard prunes and estimates exactly as NotEquals. */
  lemma NotLikeWithoutWildcardIsNotEquals(h: Histogram, value: string, value2: Option<string>)
    requires WellFormed(h) && !ContainsWildcard(value)
    ensures CanPrune(h, A.NotLike, value, value2) == CanPrune(h, A.NotEquals, value, None)
    ensures EstimateCardinality(h, A.NotLike, value, value2) == EstimateCardinality(h, A.NotEquals, value, None)
  {
    assert Allowed(A.NotLike, value, h.chars) <==> Allowed(A.NotEquals, value, h.chars);
  }

  /** A LIKE pattern that starts with `%` is never pruned. */
  lemma LeadingMatchAllIsNeverPruned(h: Histogram, value: string, value2: Option<string>)
    requires WellFormed(h) && Allowed(A.Like, value, h.chars) && |value| > 0 && value[0] == '%'
    ensures CanPrune(h, A.Like, value, value2) == Success(false)
  {
    assert '%' in value;
  }

  /** NOT LIKE '%' is pruned and estimated at zero; LIKE '%' is estimated at `total_count()`. */
  lemma MatchAllPatterns(h: Histogram, value2: Option<string>)
    requires WellFormed(h)
    ensures CanPrune(h, A.NotLike, "%", value2) == Success(true)
    ensures EstimateCardinality(h, A.NotLike, "%", value2) == Success(0.0)
    ensures CanPrune(h, A.Like, "%", value2) == Success(false)
    ensures EstimateCardinality(h, A.Like, "%", value2) == Success(A.TotalCount(h.bins) as real)
  {
    assert Allowed(A.Like, "%", h.chars) && Allowed(A.NotLike, "%", h.chars);
    assert ContainsWildcard("%");
  }

  // -------------------------------------------------------------------------------------------------
  // LIKE matching and the order of strings

  predicate LexLeq(s: string, t: string)
  {
    s == t || LexLess(s, t)
  }

  /** A pattern without wildcards matches itself only. */
  lemma {:induction false} LikeMatchLiteral(x: string, pattern: string)
    requires !ContainsWildcard(pattern)
    ensures LikeMatch(x, pattern) <==> x == pattern
    decreases |pattern|
  {
    if pattern != "" {
      assert pattern[0] in pattern;
      var rest := pattern[1..];
      assert forall k :: 0 <= k < |rest| ==> rest[k] == pattern[k + 1];
      if x != "" {
        LikeMatchLiteral(x[1..], rest);
        assert x == [x[0]] + x[1..];
        assert pattern == [pattern[0]] + rest;
      }
    }
  }

  /** A string matching a pattern starts with the pattern's literal characters before its first wildcard. */
  lemma {:induction false} LikeMatchPrefix(x: string, pattern: string, j: nat)
    requires LikeMatch(x, pattern) && j <= |pattern|
    requires forall k :: 0 <= k < j ==> pattern[k] != '%' && pattern[k] != '_'
    ensures j <= |x| && x[..j] == pattern[..j]
    decreases j
  {
    if j > 0 {
      var rest := pattern[1..];
      assert forall k :: 0 <= k < j - 1 ==> rest[k] == pattern[k + 1];
      LikeMatchPrefix(x[1..], rest, j - 1);
      assert x[..j] == [x[0]] + x[1..][..j - 1];
      assert pattern[..j] == [pattern[0]] + rest[..j - 1];
    }
  }

  /** A nonempty run of `%` matches every string. */
  lemma {:induction false} MatchAllRunMatches(x: string, pattern: string)
    requires |pattern| > 0 && forall k :: 0 <= k < |pattern| ==> pattern[k] == '%'
    ensures LikeMatch(x, pattern)
    decreases |pattern|, |x|
  {
    if |pattern| > 1 {
      MatchAllRunMatches(x, pattern[1..]);
    } else if x != "" {
      MatchAllRunMatches(x[1..], pattern);
    }
  }

  /** A prefix followed by a run of `%` matches every string with that prefix. */
  lemma {:induction false} PrefixThenMatchAllMatches(x: string, prefix: string, rest: string)
    requires |prefix| <= |x| && x[..|prefix|] == prefix && '%' !in prefix
    requires |rest| > 0 && forall k :: 0 <= k < |rest| ==> rest[k] == '%'
    ensures LikeMatch(x, prefix + rest)
    decreases |prefix|
  {
    if prefix == "" {
      assert prefix + rest == rest;
      MatchAllRunMatches(x, rest);
    } else {
      var p := prefix + rest;
      assert p[0] == prefix[0] == x[0];
      assert prefix[0] in prefix;
      assert p[1..] == prefix[1..] + rest;
      assert x[1..][..|prefix| - 1] == prefix[1..];
      PrefixThenMatchAllMatches(x[1..], prefix[1..], rest);
    }
  }

  /** Two strings that share `prefix` enclose only strings with that prefix. */
  lemma {:induction false} BoundsSharePrefix(prefix: string, lo: string, hi: string, x: string)
    requires prefix == lo[..Min(|prefix|, |lo|)] && prefix == hi[..Min(|prefix|, |hi|)]
    requires LexLeq(lo, x) && LexLeq(x, hi)
    ensures |prefix| <= |x| && x[..|prefix|] == prefix
    decreases |prefix|
  {
    if prefix != "" {
      assert |lo| >= |prefix| && |hi| >= |prefix|;
      assert lo[0] == prefix[0] && hi[0] == prefix[0];
      assert x != "";
      assert x[0] == prefix[0];
      assert LexLeq(lo[1..], x[1..]) by {
        if lo == x {
          assert lo[1..] == x[1..];
        }
      }
      assert LexLeq(x[1..], hi[1..]) by {
        if x == hi {
          assert x[1..] == hi[1..];
        }
      }
      assert prefix[1..] == lo[1..][..Min(|prefix| - 1, |lo| - 1)];
      assert prefix[1..] == hi[1..][..Min(|prefix| - 1, |hi| - 1)];
      BoundsSharePrefix(prefix[1..], lo[1..], hi[1..], x[1..]);
      assert x[..|prefix|] == [x[0]] + x[1..][..|prefix| - 1];
      assert prefix == [prefix[0]] + prefix[1..];
    }
  }

  /** A string is not below its own prefixes. */
  lemma {:induction false} PrefixIsLexLeq(prefix: string, x: string)
    requires |prefix| <= |x| && x[..|prefix|] == prefix
    ensures LexLeq(prefix, x)
    decreases |prefix|
  {
    if prefix != "" {
      assert x[1..][..|prefix| - 1] == prefix[1..];
      PrefixIsLexLeq(prefix[1..], x[1..]);
      if prefix[1..] == x[1..] {
        assert prefix == [prefix[0]] + prefix[1..] && x == [x[0]] + x[1..];
      }
    } else if x != "" {
      assert LexLess(prefix, x);
    }
  }

  /** Strings equal up to position j, where the first has the smaller character, are in order. */
  lemma {:induction false} LexLessAt(s: string, t: string, j: nat)
    requires j < |s| && j < |t| && s[..j] == t[..j] && s[j] < t[j]
    ensures LexLess(s, t)
    decreases j
  {
    if j > 0 {
      assert s[0] == s[..j][0] && t[0] == t[..j][0];
      assert s[1..][..j - 1] == s[..j][1..] && t[1..][..j - 1] == t[..j][1..];
      LexLessAt(s[1..], t[1..], j - 1);
    }
  }

  /** Every string with a given (not all-last) prefix lies below that prefix's successor. */
  lemma {:induction false} PrefixBelowNext(prefix: string, x: string, chars: string)
    requires ValidCharacters(chars) && Supported(prefix, chars)
    requires 1 <= |prefix| <= |x| && x[..|prefix|] == prefix
    requires prefix != Repeat(chars[|chars| - 1], |prefix|)
    ensures LexLess(x, Next(prefix, chars, |prefix|))
    decreases |prefix|
  {
    var k := |prefix|;
    var last := chars[|chars| - 1];
    NextUnfold(prefix, chars, k);
    var front := prefix[..k - 1];
    if prefix[k - 1] != last {
      var next := Next(prefix, chars, k);
      assert next[..k - 1] == front && x[..k - 1] == front;
      assert x[k - 1] == prefix[k - 1];
      LexLessAt(x, next, k - 1);
    } else {
      assert prefix == front + [last];
      assert k > 1 && front != Repeat(last, k - 1);
      assert x[..k - 1] == front;
      PrefixBelowNext(front, x, chars);
    }
  }

  /** Within the prefix length the representation is injective. */
  lemma ReprInjective(s: string, t: string, chars: string, prefixLength: nat)
    requires ValidCharacters(chars) && Supported(s, chars) && Supported(t, chars)
    requires |s| <= prefixLength && |t| <= prefixLength
    requires Repr(s, chars, prefixLength) == Repr(t, chars, prefixLength)
    ensures s == t
  {
    LexLessIffReprLess(s, t, chars, prefixLength);
    LexLessIffReprLess(t, s, chars, prefixLength);
    LexTotal(s, t);
  }

  /** Within the prefix length, `<=` on strings is `<=` on representations. */
  lemma LexLeqIffReprLeq(s: string, t: string, chars: string, prefixLength: nat)
    requires ValidCharacters(chars) && Supported(s, chars) && Supported(t, chars)
    requires |s| <= prefixLength && |t| <= prefixLength
    ensures LexLeq(s, t) <==> Repr(s, chars, prefixLength) <= Repr(t, chars, prefixLength)
  {
    LexLessIffReprLess(s, t, chars, prefixLength);
    LexLessIffReprLess(t, s, chars, prefixLength);
    LexTotal(s, t);
  }

  // -------------------------------------------------------------------------------------------------
  // Soundness of the LIKE and NOT LIKE pruning rules

  /** Whether a string satisfies the predicate under `std::string` comparison; LIKE and the rest are taken to hold. */
  predicate StringSatisfies(pred: A.PredicateCondition, x: string, value: string, value2: Option<string>)
  {
    match pred
    case Equals => x == value
    case NotEquals => x != value
    case LessThan => LexLess(x, value)
    case LessThanEquals => LexLeq(x, value)
    case GreaterThanEquals => LexLeq(value, x)
    case GreaterThan => LexLess(value, x)
    case Between => value2.Some? && LexLeq(value, x) && LexLeq(x, value2.value)
    case _ => true
  }

  /** A string within the prefix length that occurs in the bins occurs at its position in `Positions`. */
  lemma OccursAtPosition(h: Histogram, x: string)
    requires WellFormed(h) && Supported(x, h.chars) && |x| <= h.prefixLength
    requires A.Occurs(h.bins, Representation(h, x))
    ensures A.Occurs(Positions(h), Position(h, x))
    ensures Position(h, x) <= A.Max(Positions(h))
  {
    var d := Positions(h);
    var rx := Representation(h, x);
    DoubledLookups(h.bins, d, rx);
    var b := A.BinForValue(h.bins, rx).value;
    assert A.BinCount(d, b) == A.BinCount(h.bins, b);
    A.BinWithinRange(d, b);
  }

  /**
   * String pruning is sound under `std::string` comparison, for search values of any length: when
   * `can_prune` says so, no string within the prefix length occurring in the bins satisfies the
   * predicate.
   */
  lemma PruningIsSound(h: Histogram, pred: A.PredicateCondition, value: string, value2: Option<string>, x: string)
    requires WellFormed(h) && pred != A.Like && pred != A.NotLike
    requires CanPrune(h, pred, value, value2) == Success(true)
    requires Supported(x, h.chars) && |x| <= h.prefixLength && A.Occurs(h.bins, Representation(h, x))
    ensures !StringSatisfies(pred, x, value, value2)
  {
    OccursAtPosition(h, x);
    AllowedIsSupported(pred, value, h.chars);
    if pred == A.Between {
      BetweenPruningIsSound(h, value, value2.value, x);
    } else {
      assert A.CanPrune(Positions(h), pred, Position(h, value), None) == Success(true);
      A.PrunedValueFails(Positions(h), pred, Position(h, value), None, Position(h, x));
      PositionOrder(h, value, x);
    }
  }

  lemma BetweenPruningIsSound(h: Histogram, value: string, value2: string, x: string)
    requires WellFormed(h) && Supported(value, h.chars)
    requires CanPrune(h, A.Between, value, Some(value2)) == Success(true)
    requires Supported(x, h.chars) && |x| <= h.prefixLength && A.Occurs(Positions(h), Position(h, x))
    requires Position(h, x) <= A.Max(Positions(h))
    ensures !(LexLeq(value, x) && LexLeq(x, value2))
  {
    var d := Positions(h);
    PositionOrder(h, value, x);
    if Position(h, value) <= A.Max(d) && LexLeq(value, x) && LexLeq(x, value2) {
      PositionOrder(h, value2, x);
      if LexLess(value2, value) {
        LexLeqTransitive(value, x, value2);
        if value == value2 {
          LexLessIrreflexive(value);
        } else {
          LexLessTransitive(value, value2, value);
          LexLessIrreflexive(value);
        }
      } else {
        assert A.PrunesBetween(d, Position(h, value), Position(h, value2));
        A.PrunedValueFails(d, A.Between, Position(h, value), Some(Position(h, value2)), Position(h, x));
      }
    }
  }

  /**
   * BETWEEN prunes every search value above `max()` as a string, before the characters of `value2`
   * are checked; below it an unsupported `value2` fails.
   */
  lemma BetweenAboveMaxPrunes(h: Histogram, value: string, value2: string)
    requires WellFormed(h) && Supported(value, h.chars)
    ensures LexLess(MaxString(h), value) ==> CanPrune(h, A.Between, value, Some(value2)) == Success(true)
    ensures !LexLess(MaxString(h), value) && !Supported(value2, h.chars)
            ==> CanPrune(h, A.Between, value, Some(value2)).Failure?
  {
    var d := Positions(h);
    PositionOrder(h, value, MaxString(h));
    assert A.Max(d) == 2 * A.Max(h.bins) by { DoublingBounds(h.bins, d); }
    assert Position(h, MaxString(h)) == A.Max(d);
  }

  /**
   * With characters "abc", prefix length 2 and one bin holding only "ac", `x <= "aba"` is pruned, as
   * `std::string` comparison puts "aba" below "ac", although "aba" has the representation of "ac".
   */
  lemma LongValueComparesAsString()
    ensures var h := Histogram("abc", 2, A.Bins([4], [4], [1], [1], 1, 1));
      WellFormed(h) && Supported("aba", h.chars) && Supported("ac", h.chars) && LexLess("aba", "ac") &&
      Representation(h, "ac") == A.Min(h.bins) && Representation(h, "aba") == A.Min(h.bins) &&
      A.CanPrune(h.bins, A.LessThanEquals, Representation(h, "aba"), None) == Success(false) &&
      CanPrune(h, A.LessThanEquals, "aba", None) == Success(true)
  {
    var h := Histogram("abc", 2, A.Bins([4], [4], [1], [1], 1, 1));
    LongValueEncoding();
    assert Position(h, "aba") == 7;
    assert A.Min(Positions(h)) == 8;
    assert CanPrune(h, A.LessThanEquals, "aba", None) == A.CanPrune(Positions(h), A.LessThanEquals, 7, None);
  }

  /** The encoding of the example over "abc": "ab" is 3, and "ac" and "aba" are both 4. */
  lemma LongValueEncoding()
    ensures SettingsAreValid("abc", 2) && MaxRepr(3, 2) == 12
    ensures Supported("aba", "abc") && Supported("ab", "abc") && Supported("ac", "abc")
    ensures Repr("ab", "abc", 2) == 3 && Repr("ac", "abc", 2) == 4 && Repr("aba", "abc", 2) == 4
    ensures "aba"[..2] == "ab"
  {
    var chars := "abc";
    LongValueSettings();
    assert Repr("ab", chars, 2) == 3 by {
      ReprUnfold("ab", chars, 2);
      ReprUnfold("b", chars, 1);
      assert "ab"[1..] == "b" && "b"[1..] == "";
    }
    assert Repr("ac", chars, 2) == 4 by {
      ReprUnfold("ac", chars, 2);
      ReprUnfold("c", chars, 1);
      assert "ac"[1..] == "c" && "c"[1..] == "";
    }
    assert "aba"[..2] == "ab";
    ReprOfLongString("aba", chars, 2);
  }

  lemma LongValueSettings()
    ensures SettingsAreValid("abc", 2) && MaxRepr(3, 2) == 12 && BaseValue(3, 2) == 4 && BaseValue(3, 1) == 1
    ensures Supported("aba", "abc") && Supported("ab", "abc") && Supported("ac", "abc")
  {
    var chars := "abc";
    assert Consecutive(chars);
    assert Pow(4, 2) == 16;
    assert Supported("aba", chars) by {
      assert "aba"[0] == chars[0] && "aba"[1] == chars[1] && "aba"[2] == chars[0];
    }
    assert Supported("ab", chars) by {
      assert "ab"[0] == chars[0] && "ab"[1] == chars[1];
    }
    assert Supported("ac", chars) by {
      assert "ac"[0] == chars[0] && "ac"[1] == chars[2];
    }
  }

  /**
   * LIKE pruning is sound: when `can_prune` says so, no string within the prefix length that
   * matches the pattern occurs in the histogram.
   */
  lemma LikePruningIsSound(h: Histogram, value: string, x: string)
    requires WellFormed(h) && CanPrune(h, A.Like, value, None) == Success(true)
    requires Supported(x, h.chars) && |x| <= h.prefixLength && LikeMatch(x, value)
    ensures !A.Occurs(h.bins, Representation(h, x))
  {
    if !ContainsWildcard(value) {
      LikeLiteralPruningIsSound(h, value, x);
    } else {
      LikePrefixPruningIsSound(h, value, x);
    }
  }

  /** A pattern without wildcards is pruned as an equality with the only string it matches. */
  lemma LikeLiteralPruningIsSound(h: Histogram, value: string, x: string)
    requires WellFormed(h) && !ContainsWildcard(value) && CanPrune(h, A.Like, value, None) == Success(true)
    requires Supported(x, h.chars) && |x| <= h.prefixLength && LikeMatch(x, value)
    ensures !A.Occurs(h.bins, Representation(h, x))
  {
    LikeMatchLiteral(x, value);
    var d := Positions(h);
    var rx := Representation(h, x);
    assert A.CanPrune(d, A.Equals, 2 * rx, None) == Success(true);
    DoubledLookups(h.bins, d, rx);
    var bin := A.BinForValue(h.bins, rx);
    assert bin.Some? ==> A.BinCount(d, bin.value) == A.BinCount(h.bins, bin.value);
  }

  /** A pattern with a wildcard that LIKE prunes is pruned by the rule on its prefix. */
  lemma LikePrunedByPrefix(h: Histogram, value: string)
    requires WellFormed(h) && ContainsWildcard(value) && CanPrune(h, A.Like, value, None) == Success(true)
    ensures Allowed(A.Like, value, h.chars) && LikePrefixPrunes(h, value)
  {
  }

  /** A pattern with a wildcard is pruned by the range of its prefix, which holds every string it matches. */
  lemma LikePrefixPruningIsSound(h: Histogram, value: string, x: string)
    requires WellFormed(h) && ContainsWildcard(value) && CanPrune(h, A.Like, value, None) == Success(true)
    requires Supported(x, h.chars) && |x| <= h.prefixLength && LikeMatch(x, value)
    ensures !A.Occurs(h.bins, Representation(h, x))
  {
    var rx := Representation(h, x);
    if A.Occurs(h.bins, rx) {
      var b := A.BinForValue(h.bins, rx).value;
      A.BinWithinRange(h.bins, b);
      var w := IndexOfWildcard(value);
      var prefix := value[..Min(w, h.prefixLength)];
      LikePrunedByPrefix(h, value);
      LikeMatchPrefix(x, value, w);
      assert x[..|prefix|] == prefix;
      PrefixIsLexLeq(prefix, x);
      LexLeqIffReprLeq(prefix, x, h.chars, h.prefixLength);
      var rp := Representation(h, prefix);
      if prefix != LastString(h, |prefix|) {
        var upper := Next(prefix, h.chars, |prefix|);
        var ru := Representation(h, upper);
        PrefixBelowNext(prefix, x, h.chars);
        NextLength(prefix, h.chars, |prefix|);
        LexLessIffReprLess(x, upper, h.chars, h.prefixLength);
        if rp <= A.Max(h.bins) && ru > A.Min(h.bins) {
          A.GapHoldsNoValue(h.bins, rp, ru, rx, b);
        }
      }
    }
  }

  /**
   * NOT LIKE pruning is sound: when `can_prune` says so, every string within the prefix length
   * that occurs in the histogram matches the pattern, so no row satisfies NOT LIKE.
   */
  lemma NotLikePruningIsSound(h: Histogram, value: string, x: string)
    requires WellFormed(h) && CanPrune(h, A.NotLike, value, None) == Success(true)
    requires !ContainsWildcard(value) ==> |value| <= h.prefixLength
    requires Supported(x, h.chars) && |x| <= h.prefixLength && A.Occurs(h.bins, Representation(h, x))
    ensures LikeMatch(x, value)
  {
    if !ContainsWildcard(value) {
      assert CanPrune(h, A.NotEquals, value, None) == Success(true);
      NotEqualsPrunesSingleValue(h, value);
      OnlyValueMatches(h, value, x);
    } else if value[0] == '%' {
      assert value == "%";
      MatchAllRunMatches(x, value);
    } else {
      NotLikePrefixPruningIsSound(h, value, x);
    }
  }

  /** In a histogram whose one value is a pattern without wildcards, every value matches it. */
  lemma OnlyValueMatches(h: Histogram, value: string, x: string)
    requires WellFormed(h) && !ContainsWildcard(value) && |value| <= h.prefixLength
    requires Supported(value, h.chars) && A.Min(h.bins) == Representation(h, value) == A.Max(h.bins)
    requires Supported(x, h.chars) && |x| <= h.prefixLength && A.Occurs(h.bins, Representation(h, x))
    ensures LikeMatch(x, value)
  {
    var b := A.BinForValue(h.bins, Representation(h, x)).value;
    A.BinWithinRange(h.bins, b);
    ReprInjective(x, value, h.chars, h.prefixLength);
    LikeMatchLiteral(x, value);
  }

  /** NOT EQUALS prunes only a histogram whose one value is the search value. */
  lemma NotEqualsPrunesSingleValue(h: Histogram, value: string)
    requires WellFormed(h) && |value| <= h.prefixLength
    requires CanPrune(h, A.NotEquals, value, None) == Success(true)
    ensures Supported(value, h.chars)
    ensures A.Min(h.bins) == Representation(h, value) == A.Max(h.bins)
  {
    var d := Positions(h);
    assert A.Min(d) == 2 * Representation(h, value) && A.Max(d) == 2 * Representation(h, value);
    DoublingBounds(h.bins, d);
  }

  /** A prefix followed by `%`s is pruned only when `min()` and `max()` share the prefix. */
  lemma NotLikePrefixPruningIsSound(h: Histogram, value: string, x: string)
    requires WellFormed(h) && ContainsWildcard(value) && value[0] != '%'
    requires CanPrune(h, A.NotLike, value, None) == Success(true)
    requires Supported(x, h.chars) && |x| <= h.prefixLength && A.Occurs(h.bins, Representation(h, x))
    ensures LikeMatch(x, value)
  {
    var rx := Representation(h, x);
    var b := A.BinForValue(h.bins, rx).value;
    A.BinWithinRange(h.bins, b);
    var lo, hi := MinString(h), MaxString(h);
    assert NotLikePrefixPrunes(value, lo, hi);
    LexLeqIffReprLeq(lo, x, h.chars, h.prefixLength);
    LexLeqIffReprLeq(x, hi, h.chars, h.prefixLength);
    NotLikePrefixMatches(value, lo, hi, x);
  }

  /** A pattern that is the bounds' common prefix followed by `%`s matches every string between them. */
  lemma NotLikePrefixMatches(pattern: string, lo: string, hi: string, x: string)
    requires NotLikePrefixPrunes(pattern, lo, hi) && LexLeq(lo, x) && LexLeq(x, hi)
    ensures LikeMatch(x, pattern)
  {
    var i := IndexOf(pattern, '%');
    var prefix := pattern[..i];
    BoundsSharePrefix(prefix, lo, hi, x);
    assert '%' !in prefix;
    PrefixThenMatchAllMatches(x, prefix, pattern[i..]);
    assert pattern == prefix + pattern[i..];
  }

  // -------------------------------------------------------------------------------------------------
  // The prefix rules as written

  /**
   * NOT LIKE 'c%foo' on values from "car" to "crime": the rule as written prunes, yet "car", the
   * minimum itself, does not match the pattern and so satisfies NOT LIKE.
   */
  lemma NotLikePrefixAsWrittenPrunesMatchingRow()
    ensures NotLikePrefixPrunesAsWritten("c%foo", "car", "crime")
    ensures LexLeq("car", "car") && LexLeq("car", "crime")
    ensures !LikeMatch("car", "c%foo")
    ensures !NotLikePrefixPrunes("c%foo", "car", "crime")
  {
    assert IndexOf("c%foo", '%') == 1;
    assert "c%foo"[..1] == "c";
    assert !LikeMatch("", "foo") && !LikeMatch("r", "foo") && !LikeMatch("ar", "foo");
    assert !LikeMatch("", "%foo");
    assert !LikeMatch("r", "%foo");
    assert !LikeMatch("ar", "%foo");
    assert LexLess("car", "crime");
    assert "c%foo"[2] != '%';
  }

  /**
   * LIKE 'z%' over the characters "xyz" with prefix length 1, on one bin holding "z" only: the
   * successor of "z" is "z" itself, so the rule as written prunes a bin whose value matches.
   */
  lemma LikePrefixAsWrittenPrunesLastPrefix()
    ensures var h := Histogram("xyz", 1, A.Bins([3], [3], [1], [1], 1, 1));
      WellFormed(h) && Supported("z", h.chars) && Representation(h, "z") == 3 && A.Occurs(h.bins, 3) &&
      LikeMatch("z", "z%") && Allowed(A.Like, "z%", h.chars) &&
      LikePrefixPrunesAsWritten(h, "z%") == Success(true) && !LikePrefixPrunes(h, "z%")
  {
    var h := Histogram("xyz", 1, A.Bins([3], [3], [1], [1], 1, 1));
    LastPrefixEncoding();
    assert IndexOf("z%", '%') == 1 && "z%"[..1] == "z";
    assert IndexOfWildcard("z%") == 1;
    assert LastString(h, 1) == "z";
    assert LikeMatch("", "%") && LikeMatch("z", "z%");
  }

  /** The encoding of the example over "xyz": "z" is 3 and its own successor. */
  lemma LastPrefixEncoding()
    ensures SettingsAreValid("xyz", 1) && MaxRepr(3, 1) == 3
    ensures Supported("z", "xyz") && Repr("z", "xyz", 1) == 3 && Next("z", "xyz", 1) == "z"
  {
    assert Consecutive("xyz");
    assert Supported("z", "xyz") by {
      assert "z"[0] == "xyz"[2];
    }
    assert Repr("z", "xyz", 1) == 3 by {
      ReprUnfold("z", "xyz", 1);
      assert "z"[1..] == "";
    }
    assert Next("z", "xyz", 1) == "z" by {
      assert "z" == Repeat('z', 1);
    }
  }

  /** The settings of the example over "_`ab" and the characters of its strings. */
  lemma SingleCharacterWildcardSettings()
    ensures SettingsAreValid("_`ab", 2) && MaxRepr(4, 2) == 20 && BaseValue(4, 2) == 5
    ensures Supported("ba", "_`ab") && Supported("b_", "_`ab") && Supported("b`", "_`ab")
  {
    var chars := "_`ab";
    assert Consecutive(chars);
    assert Pow(5, 2) == 25;
    assert Supported("ba", chars) by {
      assert "ba"[0] == chars[3] && "ba"[1] == chars[2];
    }
    assert Supported("b`", chars) by {
      assert "b`"[0] == chars[3] && "b`"[1] == chars[1];
    }
    assert Supported("b_", chars) by {
      assert "b_"[0] == chars[3] && "b_"[1] == chars[0];
    }
  }

  /** The encoding of the example over "_`ab": "ba" is 19 and "b`", the successor of "b_", is 18. */
  lemma SingleCharacterWildcardEncoding()
    ensures SettingsAreValid("_`ab", 2) && MaxRepr(4, 2) == 20
    ensures Supported("ba", "_`ab") && Supported("b_", "_`ab") && Supported("b`", "_`ab")
    ensures Repr("ba", "_`ab", 2) == 19 && Repr("b`", "_`ab", 2) == 18
    ensures Next("b_", "_`ab", 2) == "b`"
  {
    var chars := "_`ab";
    SingleCharacterWildcardSettings();
    assert Repr("ba", chars, 2) == 19 by {
      ReprUnfold("ba", chars, 2);
      ReprUnfold("a", chars, 1);
      assert "ba"[1..] == "a" && "a"[1..] == "";
    }
    assert Repr("b`", chars, 2) == 18 by {
      ReprUnfold("b`", chars, 2);
      ReprUnfold("`", chars, 1);
      assert "b`"[1..] == "`" && "`"[1..] == "";
    }
    assert Next("b_", chars, 2) == "b`" by {
      assert chars[|chars| - 1] == 'b' && Repeat('b', 2)[1] == 'b' && "b_"[1] == '_';
      assert "b_" != Repeat(chars[|chars| - 1], 2);
      NextUnfold("b_", chars, 2);
      assert CharIndex('_', chars) == 0 && chars[1] == '`';
      assert "b_"[..1] == "b";
    }
  }

  /**
   * LIKE 'b_%' over the characters "_`ab" with prefix length 2, on one bin holding "ba" only: the
   * rule as written reads `_` as a character, so the prefix "b_" has the successor "b`", which lies
   * below "ba", and the bin is pruned although "ba" matches.
   */
  lemma LikePrefixAsWrittenPrunesSingleCharacterWildcard()
    ensures var h := Histogram("_`ab", 2, A.Bins([19], [19], [1], [1], 1, 1));
      WellFormed(h) && Supported("ba", h.chars) && Representation(h, "ba") == 19 && A.Occurs(h.bins, 19) &&
      LikeMatch("ba", "b_%") && Allowed(A.Like, "b_%", h.chars) &&
      LikePrefixPrunesAsWritten(h, "b_%") == Success(true)
  {
    SingleCharacterWildcardEncoding();
    assert IndexOf("b_%", '%') == 2 && "b_%"[..2] == "b_";
    assert LikeMatch("", "%") && LikeMatch("a", "_%") && LikeMatch("ba", "b_%");
  }

  // -------------------------------------------------------------------------------------------------
  // Agreement with the numeric histogram on representations

  /** The second value as a representation. */
  function ReprOption(h: Histogram, value2: Option<string>): Option<int>
    requires WellFormed(h) && (value2.Some? ==> Supported(value2.value, h.chars))
  {
    if value2.None? then None else Some(Representation(h, value2.value) as int)
  }

  /** `get_next_value` appends the first character, which adds one to the representation. */
  lemma AppendFirstIsNext(h: Histogram, value: string)
    requires WellFormed(h) && Supported(value, h.chars) && |value| <= h.prefixLength
    ensures Supported(value + [h.chars[0]], h.chars)
    ensures Representation(h, value + [h.chars[0]]) == Representation(h, value) + 1
  {
    AppendSupported(value, h.chars[0], h.chars);
    if |value| < h.prefixLength {
      ReprAppend(value, h.chars[0], h.chars, h.prefixLength);
    } else {
      ReprOfLongString(value + [h.chars[0]], h.chars, h.prefixLength);
      assert (value + [h.chars[0]])[..h.prefixLength] == value;
    }
  }

  /**
   * Apart from LIKE and NOT LIKE, string pruning for search values within the prefix length is
   * numeric pruning on representations.
   */
  lemma CanPruneAgrees(h: Histogram, pred: A.PredicateCondition, value: string, value2: Option<string>)
    requires WellFormed(h) && pred != A.Like && pred != A.NotLike
    requires Supported(value, h.chars) && |value| <= h.prefixLength
    requires value2.Some? ==> Supported(value2.value, h.chars) && (pred == A.Between ==> |value2.value| <= h.prefixLength)
    ensures CanPrune(h, pred, value, value2)
         == A.CanPrune(h.bins, pred, Representation(h, value), ReprOption(h, value2))
  {
    AllowedIsSupported(pred, value, h.chars);
    var d := Positions(h);
    var r := Representation(h, value);
    if pred == A.Between && value2.Some? {
      var r2 := Representation(h, value2.value);
      LexLessIffReprLess(value2.value, value, h.chars, h.prefixLength);
      DoublingBounds(h.bins, d);
      DoubledPrunesBetween(h.bins, d, r, r2);
    } else if pred != A.Between {
      DoubledCanPrune(h.bins, d, pred, r);
      assert A.CanPrune(h.bins, pred, r, ReprOption(h, value2)) == A.CanPrune(h.bins, pred, r, None);
    }
  }

  /** Numeric pruning other than BETWEEN at twice the value on the doubled bins. */
  lemma DoubledCanPrune(b: A.Bins, d: A.Bins, pred: A.PredicateCondition, r: int)
    requires IsDoubling(b, d) && pred != A.Between
    ensures A.CanPrune(d, pred, 2 * r, None) == A.CanPrune(b, pred, r, None)
  {
    if pred == A.Equals {
      DoubledLookups(b, d, r);
      var i := A.BinForValue(b, r);
      assert i.Some? ==> A.BinCount(d, i.value) == A.BinCount(b, i.value);
    } else {
      DoublingBounds(b, d);
    }
  }

  /** The BETWEEN pruning rule at twice both values on the doubled bins. */
  lemma DoubledPrunesBetween(b: A.Bins, d: A.Bins, r: int, r2: int)
    requires IsDoubling(b, d)
    ensures A.PrunesBetween(d, 2 * r, 2 * r2) == A.PrunesBetween(b, r, r2)
  {
    var bin, bin2 := A.BinForValue(b, r), A.BinForValue(b, r2);
    DoubledLookups(b, d, r);
    DoubledLookups(b, d, r2);
    assert A.Min(d) == 2 * A.Min(b) && A.Max(d) == 2 * A.Max(b) by { DoublingBounds(b, d); }
    if bin.Some? && bin2.Some? {
      assert A.BinCount(d, bin.value) == A.BinCount(b, bin.value);
      assert A.BinCount(d, bin2.value) == A.BinCount(b, bin2.value);
      SameCountsEmptyBetween(b, d, bin.value, bin2.value);
    }
  }

  lemma SameCountsEmptyBetween(b: A.Bins, d: A.Bins, lo: nat, hi: nat)
    requires A.WellFormed(b) && A.WellFormed(d) && d.counts == b.counts && hi <= A.NumBins(b) == A.NumBins(d)
    ensures A.EmptyBetween(d, lo, hi) == A.EmptyBetween(b, lo, hi)
  {
    assert forall k :: lo < k < hi ==> A.BinCount(d, k) == A.BinCount(b, k);
  }

  /** For a value within the prefix length the string LessThan estimates are the numeric ones. */
  lemma LessThanAgrees(h: Histogram, value: string)
    requires WellFormed(h) && Supported(value, h.chars) && |value| <= h.prefixLength
    ensures LessThanCardinality(h, value) == A.LessThanCardinality(h.bins, Representation(h, value))
    ensures DistinctLessThan(h, value) == A.DistinctLessThan(h.bins, Representation(h, value))
  {
    var d := Positions(h);
    EvenLessThanAgrees(h.bins, d, Representation(h, value));
    EvenDistinctLessThanAgrees(h.bins, d, Representation(h, value));
  }

  lemma EvenLessThanAgrees(b: A.Bins, d: A.Bins, r: int)
    requires IsDoubling(b, d)
    ensures LessThanAt(b, d, 2 * r, r) == A.LessThanCardinality(b, r)
  {
    assert A.NumBins(d) == A.NumBins(b) && A.Min(d) == 2 * A.Min(b) && A.Max(d) == 2 * A.Max(b)
      by { DoublingBounds(b, d); }
    DoubledLookups(b, d, r);
    LookupsMatch(b, d, 2 * r, r);
  }

  lemma EvenDistinctLessThanAgrees(b: A.Bins, d: A.Bins, r: int)
    requires IsDoubling(b, d)
    ensures DistinctLessThanAt(b, d, 2 * r, r) == A.DistinctLessThan(b, r)
  {
    assert A.NumBins(d) == A.NumBins(b) && A.Min(d) == 2 * A.Min(b) && A.Max(d) == 2 * A.Max(b)
      by { DoublingBounds(b, d); }
    DoubledLookups(b, d, r);
    LookupsMatch(b, d, 2 * r, r);
  }

  /**
   * `LessThanAt` and `DistinctLessThanAt` are the numeric LessThan estimates wherever the range
   * checks and the lookups at `p` in `lookup` decide as those at `repr` in `h` do.
   */
  lemma LookupsMatch(h: A.Bins, lookup: A.Bins, p: int, repr: int)
    requires A.WellFormed(h) && A.WellFormed(lookup) && A.NumBins(lookup) == A.NumBins(h)
    requires (p > A.Max(lookup)) == (repr > A.Max(h)) && (p < A.Min(lookup)) == (repr < A.Min(h))
    requires A.BinForValue(lookup, p) == A.BinForValue(h, repr)
    requires A.BinForValue(h, repr).None? ==> A.UpperBoundForValue(lookup, p) == A.UpperBoundForValue(h, repr)
    ensures LessThanAt(h, lookup, p, repr) == A.LessThanCardinality(h, repr)
    ensures DistinctLessThanAt(h, lookup, p, repr) == A.DistinctLessThan(h, repr)
  {
    LessThanAtMatches(h, lookup, p, repr);
    DistinctLessThanAtMatches(h, lookup, p, repr);
  }

  lemma LessThanAtMatches(h: A.Bins, lookup: A.Bins, p: int, repr: int)
    requires A.WellFormed(h) && A.WellFormed(lookup) && A.NumBins(lookup) == A.NumBins(h)
    requires (p > A.Max(lookup)) == (repr > A.Max(h)) && (p < A.Min(lookup)) == (repr < A.Min(h))
    requires A.BinForValue(lookup, p) == A.BinForValue(h, repr)
    requires A.BinForValue(h, repr).None? ==> A.UpperBoundForValue(lookup, p) == A.UpperBoundForValue(h, repr)
    ensures LessThanAt(h, lookup, p, repr) == A.LessThanCardinality(h, repr)
  {
  }

  lemma DistinctLessThanAtMatches(h: A.Bins, lookup: A.Bins, p: int, repr: int)
    requires A.WellFormed(h) && A.WellFormed(lookup) && A.NumBins(lookup) == A.NumBins(h)
    requires (p > A.Max(lookup)) == (repr > A.Max(h))
    requires A.BinForValue(lookup, p) == A.BinForValue(h, repr)
    requires A.BinForValue(h, repr).None? ==> A.UpperBoundForValue(lookup, p) == A.UpperBoundForValue(h, repr)
    ensures DistinctLessThanAt(h, lookup, p, repr) == A.DistinctLessThan(h, repr)
  {
  }

  /**
   * Where `repr` is the min of bin k and the lookups at `p` find the gap below bin k instead, the
   * estimates still agree: the share of bin k below its own min is zero.
   */
  lemma LessThanAtBinStart(h: A.Bins, lookup: A.Bins, p: int, repr: int, k: nat)
    requires A.WellFormed(h) && A.WellFormed(lookup) && A.NumBins(lookup) == A.NumBins(h)
    requires A.Min(lookup) <= p <= A.Max(lookup) && A.Min(h) <= repr <= A.Max(h)
    requires k < A.NumBins(h) && h.mins[k] == repr
    requires A.BinForValue(h, repr) == Some(k)
    requires A.BinForValue(lookup, p).None? && A.UpperBoundForValue(lookup, p) == Some(k)
    ensures LessThanAt(h, lookup, p, repr) == A.LessThanCardinality(h, repr)
    ensures DistinctLessThanAt(h, lookup, p, repr) == A.DistinctLessThan(h, repr)
  {
    var share := A.Share(h, k, repr);
    assert share == 0.0;
    assert A.PartOfBin(h, k, repr, A.BinCount(h, k)) == share * A.BinCount(h, k) as real == 0.0;
    assert A.PartOfBin(h, k, repr, A.BinCountDistinct(h, k)) == share * A.BinCountDistinct(h, k) as real == 0.0;
  }

  /**
   * `get_next_value` of a value within the prefix length, in its place: not pruned by LessThan once
   * the value itself is not below `min()`, and with the numeric LessThan estimates of the next
   * representation. Of a value of exactly the prefix length the successor is longer, so it sits
   * just above the value, where a bin that starts at the next representation begins above it: the
   * string lookups find the gap below that bin and the numeric ones a share of zero in it.
   */
  lemma NextValueAgrees(h: Histogram, value: string)
    requires WellFormed(h) && Supported(value, h.chars) && |value| <= h.prefixLength
    requires Representation(h, value) >= A.Min(h.bins)
    ensures Supported(value + [h.chars[0]], h.chars)
    ensures CanPrune(h, A.LessThan, value + [h.chars[0]], None) == Success(false)
    ensures LessThanCardinality(h, value + [h.chars[0]])
         == A.LessThanCardinality(h.bins, Representation(h, value) + 1)
    ensures DistinctLessThan(h, value + [h.chars[0]])
         == A.DistinctLessThan(h.bins, Representation(h, value) + 1)
  {
    AppendFirstIsNext(h, value);
    if |value| < h.prefixLength {
      NextOfShorterAgrees(h, value);
    } else {
      NextOfLongestNotPruned(h, value, Representation(h, value));
      NextOfLongestCardinality(h, value);
      NextOfLongestDistinctCount(h, value);
    }
  }

  lemma NextOfShorterAgrees(h: Histogram, value: string)
    requires WellFormed(h) && Supported(value, h.chars) && |value| < h.prefixLength
    requires Representation(h, value) >= A.Min(h.bins)
    ensures Supported(value + [h.chars[0]], h.chars)
    ensures CanPrune(h, A.LessThan, value + [h.chars[0]], None) == Success(false)
    ensures LessThanCardinality(h, value + [h.chars[0]])
         == A.LessThanCardinality(h.bins, Representation(h, value) + 1)
    ensures DistinctLessThan(h, value + [h.chars[0]])
         == A.DistinctLessThan(h.bins, Representation(h, value) + 1)
  {
    var next := value + [h.chars[0]];
    AppendFirstIsNext(h, value);
    LessThanAgrees(h, next);
    CanPruneAgrees(h, A.LessThan, next, None);
  }

  lemma NextOfLongestCardinality(h: Histogram, value: string)
    requires WellFormed(h) && Supported(value, h.chars) && |value| == h.prefixLength
    requires Representation(h, value) >= A.Min(h.bins)
    ensures Supported(value + [h.chars[0]], h.chars)
    ensures LessThanCardinality(h, value + [h.chars[0]])
         == A.LessThanCardinality(h.bins, Representation(h, value) + 1)
  {
    NextOfLongestCardinalityAgrees(h, value, Representation(h, value),
                                   A.LessThanCardinality(h.bins, Representation(h, value) + 1));
  }

  lemma NextOfLongestDistinctCount(h: Histogram, value: string)
    requires WellFormed(h) && Supported(value, h.chars) && |value| == h.prefixLength
    requires Representation(h, value) >= A.Min(h.bins)
    ensures Supported(value + [h.chars[0]], h.chars)
    ensures DistinctLessThan(h, value + [h.chars[0]])
         == A.DistinctLessThan(h.bins, Representation(h, value) + 1)
  {
    NextOfLongestDistinctCountAgrees(h, value, Representation(h, value),
                                     A.DistinctLessThan(h.bins, Representation(h, value) + 1));
  }

  /*
   * The next lemmas name the representation `r` of the value and the estimate `x` against which
   * they compare, rather than restating them: the solver does much better with the lookups at
   * `2 * r + 1` than with the same terms over the representation's definition.
   */

  lemma NextOfLongestCardinalityAgrees(h: Histogram, value: string, r: int, x: Result<real>)
    requires WellFormed(h) && Supported(value, h.chars) && |value| == h.prefixLength
    requires r == Representation(h, value) && r >= A.Min(h.bins)
    requires x == A.LessThanCardinality(h.bins, r + 1)
    ensures Supported(value + [h.chars[0]], h.chars)
    ensures LessThanCardinality(h, value + [h.chars[0]]) == x
  {
    AppendFirstIsNext(h, value);
    NextOfLongestPosition(h, value, r);
    EstimatesAtPosition(h, value + [h.chars[0]], 2 * r + 1, r + 1);
    NextOfLongestAgrees(h.bins, Positions(h), r);
  }

  lemma NextOfLongestDistinctCountAgrees(h: Histogram, value: string, r: int, x: Result<real>)
    requires WellFormed(h) && Supported(value, h.chars) && |value| == h.prefixLength
    requires r == Representation(h, value) && r >= A.Min(h.bins)
    requires x == A.DistinctLessThan(h.bins, r + 1)
    ensures Supported(value + [h.chars[0]], h.chars)
    ensures DistinctLessThan(h, value + [h.chars[0]]) == x
  {
    AppendFirstIsNext(h, value);
    NextOfLongestPosition(h, value, r);
    EstimatesAtPosition(h, value + [h.chars[0]], 2 * r + 1, r + 1);
    NextOfLongestAgrees(h.bins, Positions(h), r);
  }

  /** The string LessThan estimates are those at the value's position and representation. */
  lemma EstimatesAtPosition(h: Histogram, value: string, p: int, repr: int)
    requires WellFormed(h) && Supported(value, h.chars)
    requires Position(h, value) == p && Representation(h, value) == repr
    ensures LessThanCardinality(h, value) == LessThanAt(h.bins, Positions(h), p, repr)
    ensures DistinctLessThan(h, value) == DistinctLessThanAt(h.bins, Positions(h), p, repr)
  {
  }

  /** The successor of a value of the prefix length sits just above the value. */
  lemma NextOfLongestPosition(h: Histogram, value: string, r: int)
    requires WellFormed(h) && Supported(value, h.chars) && |value| == h.prefixLength
    requires r == Representation(h, value)
    ensures Supported(value + [h.chars[0]], h.chars)
    ensures Position(h, value + [h.chars[0]]) == 2 * r + 1
  {
    var next := value + [h.chars[0]];
    AppendSupported(value, h.chars[0], h.chars);
    assert next[..h.prefixLength] == value;
  }

  lemma NextOfLongestNotPruned(h: Histogram, value: string, r: int)
    requires WellFormed(h) && Supported(value, h.chars) && |value| == h.prefixLength
    requires r == Representation(h, value) && r >= A.Min(h.bins)
    ensures Supported(value + [h.chars[0]], h.chars)
    ensures CanPrune(h, A.LessThan, value + [h.chars[0]], None) == Success(false)
  {
    var next := value + [h.chars[0]];
    var d := Positions(h);
    NextOfLongestPosition(h, value, r);
    AllowedIsSupported(A.LessThan, next, h.chars);
    assert A.Min(d) == 2 * A.Min(h.bins) by { DoublingBounds(h.bins, d); }
  }

  /**
   * The lookups at position 2r + 1 against the numeric ones at r + 1: they differ only where a bin
   * starts at r + 1, and there the share of the numeric estimate is zero.
   */
  lemma NextOfLongestAgrees(b: A.Bins, d: A.Bins, r: int)
    requires IsDoubling(b, d) && r >= A.Min(b)
    ensures LessThanAt(b, d, 2 * r + 1, r + 1) == A.LessThanCardinality(b, r + 1)
    ensures DistinctLessThanAt(b, d, 2 * r + 1, r + 1) == A.DistinctLessThan(b, r + 1)
  {
    if r + 1 > A.Max(b) {
      NextAboveMax(b, d, r);
    } else {
      assert LowerBound(b.maxs, r + 1) < |b.maxs| by { assert b.maxs[|b.maxs| - 1] >= r + 1; }
      if b.mins[LowerBound(b.maxs, r + 1)] <= r {
        NextInBin(b, d, r);
      } else if b.mins[LowerBound(b.maxs, r + 1)] == r + 1 {
        NextAtBinStart(b, d, r);
      } else {
        NextInGap(b, d, r);
      }
    }
  }

  lemma NextAboveMax(b: A.Bins, d: A.Bins, r: int)
    requires IsDoubling(b, d) && r + 1 > A.Max(b)
    ensures LessThanAt(b, d, 2 * r + 1, r + 1) == A.LessThanCardinality(b, r + 1)
    ensures DistinctLessThanAt(b, d, 2 * r + 1, r + 1) == A.DistinctLessThan(b, r + 1)
  {
    assert A.NumBins(d) == A.NumBins(b) && A.Max(d) == 2 * A.Max(b) by { DoublingBounds(b, d); }
    assert LessThanAt(b, d, 2 * r + 1, r + 1) == Success(A.TotalCount(b) as real);
    assert DistinctLessThanAt(b, d, 2 * r + 1, r + 1) == Success(A.TotalCountDistinct(b) as real);
  }

  lemma NextInBin(b: A.Bins, d: A.Bins, r: int)
    requires IsDoubling(b, d) && A.Min(b) <= r && r + 1 <= A.Max(b)
    requires LowerBound(b.maxs, r + 1) < |b.maxs| && b.mins[LowerBound(b.maxs, r + 1)] <= r
    ensures LessThanAt(b, d, 2 * r + 1, r + 1) == A.LessThanCardinality(b, r + 1)
    ensures DistinctLessThanAt(b, d, 2 * r + 1, r + 1) == A.DistinctLessThan(b, r + 1)
  {
    DoublingBounds(b, d);
    assert !(2 * r + 1 > A.Max(d)) && !(r + 1 > A.Max(b)) && !(2 * r + 1 < A.Min(d)) && !(r + 1 < A.Min(b));
    OddLookupsInBin(b, d, r);
    LookupsMatch(b, d, 2 * r + 1, r + 1);
  }

  lemma NextAtBinStart(b: A.Bins, d: A.Bins, r: int)
    requires IsDoubling(b, d) && A.Min(b) <= r && r + 1 <= A.Max(b)
    requires LowerBound(b.maxs, r + 1) < |b.maxs| && b.mins[LowerBound(b.maxs, r + 1)] == r + 1
    ensures LessThanAt(b, d, 2 * r + 1, r + 1) == A.LessThanCardinality(b, r + 1)
    ensures DistinctLessThanAt(b, d, 2 * r + 1, r + 1) == A.DistinctLessThan(b, r + 1)
  {
    DoublingBounds(b, d);
    assert !(2 * r + 1 > A.Max(d)) && !(r + 1 > A.Max(b)) && !(2 * r + 1 < A.Min(d)) && !(r + 1 < A.Min(b));
    OddLookupsAtBinStart(b, d, r);
    LessThanAtBinStart(b, d, 2 * r + 1, r + 1, LowerBound(b.maxs, r + 1));
  }

  lemma NextInGap(b: A.Bins, d: A.Bins, r: int)
    requires IsDoubling(b, d) && A.Min(b) <= r && r + 1 <= A.Max(b)
    requires LowerBound(b.maxs, r + 1) < |b.maxs| && b.mins[LowerBound(b.maxs, r + 1)] > r + 1
    ensures LessThanAt(b, d, 2 * r + 1, r + 1) == A.LessThanCardinality(b, r + 1)
    ensures DistinctLessThanAt(b, d, 2 * r + 1, r + 1) == A.DistinctLessThan(b, r + 1)
  {
    DoublingBounds(b, d);
    var p := 2 * r + 1;
    assert !(p > A.Max(d)) && !(r + 1 > A.Max(b)) && !(p < A.Min(d)) && !(r + 1 < A.Min(b));
    OddLookupsInGap(b, d, r);
    LookupsMatch(b, d, p, r + 1);
  }

  /*
   * The lookups at 2r + 1 and at r + 1, by where r + 1 falls against the first bin reaching it:
   * inside it both find it; at its min the string lookups find the gap below it; below its min
   * both find the gap.
   */

  lemma OddLookupsInBin(b: A.Bins, d: A.Bins, r: int)
    requires IsDoubling(b, d) && LowerBound(b.maxs, r + 1) < |b.maxs| && b.mins[LowerBound(b.maxs, r + 1)] <= r
    ensures A.BinForValue(d, 2 * r + 1) == A.BinForValue(b, r + 1) == Some(LowerBound(b.maxs, r + 1))
  {
    OddLookups(b, d, r);
  }

  lemma OddLookupsAtBinStart(b: A.Bins, d: A.Bins, r: int)
    requires IsDoubling(b, d) && LowerBound(b.maxs, r + 1) < |b.maxs| && b.mins[LowerBound(b.maxs, r + 1)] == r + 1
    ensures A.BinForValue(d, 2 * r + 1).None? && A.BinForValue(b, r + 1) == Some(LowerBound(b.maxs, r + 1))
    ensures A.UpperBoundForValue(d, 2 * r + 1) == Some(LowerBound(b.maxs, r + 1))
  {
    OddLookups(b, d, r);
  }

  lemma OddLookupsInGap(b: A.Bins, d: A.Bins, r: int)
    requires IsDoubling(b, d) && LowerBound(b.maxs, r + 1) < |b.maxs| && b.mins[LowerBound(b.maxs, r + 1)] > r + 1
    ensures A.BinForValue(d, 2 * r + 1).None? && A.BinForValue(b, r + 1).None?
    ensures A.UpperBoundForValue(d, 2 * r + 1) == A.UpperBoundForValue(b, r + 1) == Some(LowerBound(b.maxs, r + 1))
  {
    OddLookups(b, d, r);
    UpperBoundInGap(b, r + 1);
  }

  /** In a gap the first bin whose max reaches the value lies wholly above it. */
  lemma UpperBoundInGap(b: A.Bins, v: int)
    requires A.WellFormed(b)
    requires LowerBound(b.maxs, v) < |b.maxs| && v < b.mins[LowerBound(b.maxs, v)]
    ensures UpperBound(b.maxs, v) == LowerBound(b.maxs, v)
  {
    var k, u := LowerBound(b.maxs, v), UpperBound(b.maxs, v);
    assert b.maxs[k] > v;
    assert u <= k;
    assert u >= k;
  }

  /**
   * For search values within the prefix length, the string estimate is the numeric estimate of
   * the representations.
   */
  lemma EstimateAgrees(h: Histogram, pred: A.PredicateCondition, value: string, value2: Option<string>)
    requires WellFormed(h) && pred != A.Like && pred != A.NotLike
    requires Supported(value, h.chars) && |value| <= h.prefixLength
    requires value2.Some? ==> Supported(value2.value, h.chars) && |value2.value| <= h.prefixLength
    ensures EstimateCardinality(h, pred, value, value2)
         == A.EstimateCardinality(h.bins, pred, Representation(h, value), ReprOption(h, value2))
    decreases A.Rank(pred)
  {
    match pred
    case Equals => EqualsEstimateAgrees(h, value, value2);
    case NotEquals =>
      EstimateAgrees(h, A.Equals, value, None);
      NotEqualsEstimateAgrees(h, value, value2);
    case LessThan => LessThanEstimateAgrees(h, value, value2);
    case LessThanEquals => LessThanEqualsEstimateAgrees(h, value, value2);
    case GreaterThanEquals =>
      EstimateAgrees(h, A.LessThan, value, None);
      GreaterThanEqualsEstimateAgrees(h, value, value2);
    case GreaterThan =>
      EstimateAgrees(h, A.LessThanEquals, value, None);
      GreaterThanEstimateAgrees(h, value, value2);
    case Between =>
      if value2.Some? {
        EstimateAgrees(h, A.LessThanEquals, value2.value, None);
        EstimateAgrees(h, A.LessThan, value, None);
        BetweenEstimateAgrees(h, value, value2.value);
      } else {
        CanPruneAgrees(h, pred, value, value2);
      }
    case _ => CanPruneAgrees(h, pred, value, value2);
  }

  lemma EqualsEstimateAgrees(h: Histogram, value: string, value2: Option<string>)
    requires WellFormed(h) && Supported(value, h.chars) && |value| <= h.prefixLength
    requires value2.Some? ==> Supported(value2.value, h.chars)
    ensures EstimateCardinality(h, A.Equals, value, value2)
         == A.EstimateCardinality(h.bins, A.Equals, Representation(h, value), ReprOption(h, value2))
  {
    CanPruneAgrees(h, A.Equals, value, value2);
    EvenEqualsAgrees(h.bins, Positions(h), Representation(h, value));
  }

  lemma EvenEqualsAgrees(b: A.Bins, d: A.Bins, r: int)
    requires IsDoubling(b, d)
    ensures A.EqualsCardinality(d, 2 * r) == A.EqualsCardinality(b, r)
  {
    DoubledLookups(b, d, r);
    var bin := A.BinForValue(b, r);
    assert bin.Some? ==> A.BinCount(d, bin.value) == A.BinCount(b, bin.value) &&
                         A.BinCountDistinct(d, bin.value) == A.BinCountDistinct(b, bin.value);
  }

  lemma LessThanEstimateAgrees(h: Histogram, value: string, value2: Option<string>)
    requires WellFormed(h) && Supported(value, h.chars) && |value| <= h.prefixLength
    requires value2.Some? ==> Supported(value2.value, h.chars)
    ensures EstimateCardinality(h, A.LessThan, value, value2)
         == A.EstimateCardinality(h.bins, A.LessThan, Representation(h, value), ReprOption(h, value2))
  {
    CanPruneAgrees(h, A.LessThan, value, value2);
    LessThanAgrees(h, value);
  }

  /** x != v is the total minus the estimate of x = v. */
  lemma NotEqualsEstimateAgrees(h: Histogram, value: string, value2: Option<string>)
    requires WellFormed(h) && Supported(value, h.chars) && |value| <= h.prefixLength
    requires value2.Some? ==> Supported(value2.value, h.chars)
    requires EstimateCardinality(h, A.Equals, value, None)
          == A.EstimateCardinality(h.bins, A.Equals, Representation(h, value), None)
    ensures EstimateCardinality(h, A.NotEquals, value, value2)
         == A.EstimateCardinality(h.bins, A.NotEquals, Representation(h, value), ReprOption(h, value2))
  {
    CanPruneAgrees(h, A.NotEquals, value, value2);
  }

  /** x >= v is the total minus the estimate of x < v. */
  lemma GreaterThanEqualsEstimateAgrees(h: Histogram, value: string, value2: Option<string>)
    requires WellFormed(h) && Supported(value, h.chars) && |value| <= h.prefixLength
    requires value2.Some? ==> Supported(value2.value, h.chars)
    requires EstimateCardinality(h, A.LessThan, value, None)
          == A.EstimateCardinality(h.bins, A.LessThan, Representation(h, value), None)
    ensures EstimateCardinality(h, A.GreaterThanEquals, value, value2)
         == A.EstimateCardinality(h.bins, A.GreaterThanEquals, Representation(h, value), ReprOption(h, value2))
  {
    CanPruneAgrees(h, A.GreaterThanEquals, value, value2);
  }

  /** x > v is the total minus the estimate of x <= v. */
  lemma GreaterThanEstimateAgrees(h: Histogram, value: string, value2: Option<string>)
    requires WellFormed(h) && Supported(value, h.chars) && |value| <= h.prefixLength
    requires value2.Some? ==> Supported(value2.value, h.chars)
    requires EstimateCardinality(h, A.LessThanEquals, value, None)
          == A.EstimateCardinality(h.bins, A.LessThanEquals, Representation(h, value), None)
    ensures EstimateCardinality(h, A.GreaterThan, value, value2)
         == A.EstimateCardinality(h.bins, A.GreaterThan, Representation(h, value), ReprOption(h, value2))
  {
    CanPruneAgrees(h, A.GreaterThan, value, value2);
  }

  /** x <= v is x < v + first character, at the next representation or just above v. */
  lemma LessThanEqualsEstimateAgrees(h: Histogram, value: string, value2: Option<string>)
    requires WellFormed(h) && Supported(value, h.chars) && |value| <= h.prefixLength
    requires value2.Some? ==> Supported(value2.value, h.chars)
    ensures EstimateCardinality(h, A.LessThanEquals, value, value2)
         == A.EstimateCardinality(h.bins, A.LessThanEquals, Representation(h, value), ReprOption(h, value2))
  {
    var r := Representation(h, value);
    CanPruneAgrees(h, A.LessThanEquals, value, value2);
    A.CardinalityLessThanEqualsUnfold(h.bins, r, ReprOption(h, value2));
    if r >= A.Min(h.bins) {
      NextValueAgrees(h, value);
      assert EstimateCardinality(h, A.LessThanEquals, value, value2)
          == EstimateCardinality(h, A.LessThan, value + [h.chars[0]], None);
    }
  }

  lemma BetweenEstimateAgrees(h: Histogram, value: string, value2: string)
    requires WellFormed(h) && Supported(value, h.chars) && |value| <= h.prefixLength
    requires Supported(value2, h.chars) && |value2| <= h.prefixLength
    requires EstimateCardinality(h, A.LessThanEquals, value2, None)
          == A.EstimateCardinality(h.bins, A.LessThanEquals, Representation(h, value2), None)
    requires EstimateCardinality(h, A.LessThan, value, None)
          == A.EstimateCardinality(h.bins, A.LessThan, Representation(h, value), None)
    ensures EstimateCardinality(h, A.Between, value, Some(value2))
         == A.EstimateCardinality(h.bins, A.Between, Representation(h, value), Some(Representation(h, value2) as int))
  {
    var r, r2 := Representation(h, value), Representation(h, value2) as int;
    var p := CanPrune(h, A.Between, value, Some(value2));
    CanPruneAgrees(h, A.Between, value, Some(value2));
    assert p == A.CanPrune(h.bins, A.Between, r, Some(r2));
    LexLessIffReprLess(value2, value, h.chars, h.prefixLength);
    if p.Success? && !p.value && !LexLess(value2, value) {
      var x := EstimateCardinality(h, A.LessThanEquals, value2, None);
      var y := EstimateCardinality(h, A.LessThan, value, None);
      assert EstimateCardinality(h, A.Between, value, Some(value2)) == A.Difference(x, y);
    }
  }

  /** The same agreement for the distinct-count estimate. */
  lemma DistinctCountAgrees(h: Histogram, pred: A.PredicateCondition, value: string, value2: Option<string>)
    requires WellFormed(h) && pred != A.Like && pred != A.NotLike
    requires Supported(value, h.chars) && |value| <= h.prefixLength
    requires value2.Some? ==> Supported(value2.value, h.chars) && |value2.value| <= h.prefixLength
    ensures EstimateDistinctCount(h, pred, value, value2)
         == A.EstimateDistinctCount(h.bins, pred, Representation(h, value), ReprOption(h, value2))
    decreases A.Rank(pred)
  {
    match pred
    case NotEquals => NotEqualsDistinctCountAgrees(h, value, value2);
    case LessThan => LessThanDistinctCountAgrees(h, value, value2);
    case LessThanEquals => LessThanEqualsDistinctCountAgrees(h, value, value2);
    case GreaterThanEquals =>
      DistinctCountAgrees(h, A.LessThan, value, None);
      GreaterThanEqualsDistinctCountAgrees(h, value, value2);
    case GreaterThan =>
      DistinctCountAgrees(h, A.LessThanEquals, value, None);
      GreaterThanDistinctCountAgrees(h, value, value2);
    case Between =>
      if value2.Some? {
        DistinctCountAgrees(h, A.LessThanEquals, value2.value, None);
        DistinctCountAgrees(h, A.LessThan, value, None);
        BetweenDistinctCountAgrees(h, value, value2.value);
      } else {
        CanPruneAgrees(h, pred, value, value2);
      }
    case _ => CanPruneAgrees(h, pred, value, value2);
  }

  lemma NotEqualsDistinctCountAgrees(h: Histogram, value: string, value2: Option<string>)
    requires WellFormed(h) && Supported(value, h.chars) && |value| <= h.prefixLength
    requires value2.Some? ==> Supported(value2.value, h.chars)
    ensures EstimateDistinctCount(h, A.NotEquals, value, value2)
         == A.EstimateDistinctCount(h.bins, A.NotEquals, Representation(h, value), ReprOption(h, value2))
  {
    var r := Representation(h, value);
    var pruned := CanPrune(h, A.NotEquals, value, value2);
    CanPruneAgrees(h, A.NotEquals, value, value2);
    if pruned.Success? && !pruned.value {
      PositionLookups(h, r);
      assert Position(h, value) == 2 * r;
      DistinctCountNotEqualsUnfold(h, value, value2);
      A.DistinctCountNotEqualsUnfold(h.bins, r, ReprOption(h, value2));
    }
  }

  /** Unpruned, x != v counts every distinct value but the one of v's bin, if it has one. */
  lemma DistinctCountNotEqualsUnfold(h: Histogram, value: string, value2: Option<string>)
    requires WellFormed(h) && Supported(value, h.chars)
    requires CanPrune(h, A.NotEquals, value, value2) == Success(false)
    ensures EstimateDistinctCount(h, A.NotEquals, value, value2)
         == if A.BinForValue(Positions(h), Position(h, value)).None? then Success(A.TotalCountDistinct(h.bins) as real)
            else Success(A.TotalCountDistinct(h.bins) as real - 1.0)
  {
  }

  lemma LessThanDistinctCountAgrees(h: Histogram, value: string, value2: Option<string>)
    requires WellFormed(h) && Supported(value, h.chars) && |value| <= h.prefixLength
    requires value2.Some? ==> Supported(value2.value, h.chars)
    ensures EstimateDistinctCount(h, A.LessThan, value, value2)
         == A.EstimateDistinctCount(h.bins, A.LessThan, Representation(h, value), ReprOption(h, value2))
  {
    CanPruneAgrees(h, A.LessThan, value, value2);
    LessThanAgrees(h, value);
  }

  lemma LessThanEqualsDistinctCountAgrees(h: Histogram, value: string, value2: Option<string>)
    requires WellFormed(h) && Supported(value, h.chars) && |value| <= h.prefixLength
    requires value2.Some? ==> Supported(value2.value, h.chars)
    ensures EstimateDistinctCount(h, A.LessThanEquals, value, value2)
         == A.EstimateDistinctCount(h.bins, A.LessThanEquals, Representation(h, value), ReprOption(h, value2))
  {
    var pruned := CanPrune(h, A.LessThanEquals, value, value2);
    CanPruneAgrees(h, A.LessThanEquals, value, value2);
    if pruned.Success? && !pruned.value {
      NextValueAgrees(h, value);
      DistinctCountLessThanEqualsUnfold(h, value, value2);
      A.DistinctCountLessThanEqualsUnfold(h.bins, Representation(h, value), ReprOption(h, value2));
    }
  }

  /** Unpruned, x <= v counts the distinct values below v followed by the first character. */
  lemma DistinctCountLessThanEqualsUnfold(h: Histogram, value: string, value2: Option<string>)
    requires WellFormed(h) && Supported(value, h.chars)
    requires CanPrune(h, A.LessThanEquals, value, value2) == Success(false)
    ensures EstimateDistinctCount(h, A.LessThanEquals, value, value2)
         == EstimateDistinctCount(h, A.LessThan, value + [h.chars[0]], None)
  {
  }

  lemma GreaterThanEqualsDistinctCountAgrees(h: Histogram, value: string, value2: Option<string>)
    requires WellFormed(h) && Supported(value, h.chars) && |value| <= h.prefixLength
    requires value2.Some? ==> Supported(value2.value, h.chars)
    requires EstimateDistinctCount(h, A.LessThan, value, None)
          == A.EstimateDistinctCount(h.bins, A.LessThan, Representation(h, value), None)
    ensures EstimateDistinctCount(h, A.GreaterThanEquals, value, value2)
         == A.EstimateDistinctCount(h.bins, A.GreaterThanEquals, Representation(h, value), ReprOption(h, value2))
  {
    CanPruneAgrees(h, A.GreaterThanEquals, value, value2);
  }

  lemma GreaterThanDistinctCountAgrees(h: Histogram, value: string, value2: Option<string>)
    requires WellFormed(h) && Supported(value, h.chars) && |value| <= h.prefixLength
    requires value2.Some? ==> Supported(value2.value, h.chars)
    requires EstimateDistinctCount(h, A.LessThanEquals, value, None)
          == A.EstimateDistinctCount(h.bins, A.LessThanEquals, Representation(h, value), None)
    ensures EstimateDistinctCount(h, A.GreaterThan, value, value2)
         == A.EstimateDistinctCount(h.bins, A.GreaterThan, Representation(h, value), ReprOption(h, value2))
  {
    CanPruneAgrees(h, A.GreaterThan, value, value2);
  }

  lemma BetweenDistinctCountAgrees(h: Histogram, value: string, value2: string)
    requires WellFormed(h) && Supported(value, h.chars) && |value| <= h.prefixLength
    requires Supported(value2, h.chars) && |value2| <= h.prefixLength
    requires EstimateDistinctCount(h, A.LessThanEquals, value2, None)
          == A.EstimateDistinctCount(h.bins, A.LessThanEquals, Representation(h, value2), None)
    requires EstimateDistinctCount(h, A.LessThan, value, None)
          == A.EstimateDistinctCount(h.bins, A.LessThan, Representation(h, value), None)
    ensures EstimateDistinctCount(h, A.Between, value, Some(value2))
         == A.EstimateDistinctCount(h.bins, A.Between, Representation(h, value), Some(Representation(h, value2) as int))
  {
    var r, r2 := Representation(h, value), Representation(h, value2) as int;
    var p := CanPrune(h, A.Between, value, Some(value2));
    CanPruneAgrees(h, A.Between, value, Some(value2));
    assert p == A.CanPrune(h.bins, A.Between, r, Some(r2));
    LexLessIffReprLess(value2, value, h.chars, h.prefixLength);
    if p.Success? && !p.value && !LexLess(value2, value) {
      var x := EstimateDistinctCount(h, A.LessThanEquals, value2, None);
      var y := EstimateDistinctCount(h, A.LessThan, value, None);
      assert EstimateDistinctCount(h, A.Between, value, Some(value2)) == A.Difference(x, y);
    }
  }

  // -------------------------------------------------------------------------------------------------
  // The dereference of an empty `value2`, as written

  /** As written, every string estimate without a second value dereferences an empty optional. */
  lemma AsWrittenNeedsValue2(h: Histogram, pred: A.PredicateCondition, value: string)
    requires WellFormed(h)
    ensures EstimateCardinalityAsWritten(h, pred, value, None).Failure?
  {
  }

  /**
   * An Equals estimate with no second value, which the LIKE rewriting itself asks for, fails as
   * written, while the corrected estimate exists for every supported value of a consistent histogram.
   */
  lemma AsWrittenFailsOnEquals(h: Histogram, value: string)
    requires WellFormed(h) && P.Consistent(h.bins) && Supported(value, h.chars) && |value| <= h.prefixLength
    ensures EstimateCardinalityAsWritten(h, A.Equals, value, None).Failure?
    ensures EstimateCardinality(h, A.Equals, value, None).Success?
  {
    EstimateAgrees(h, A.Equals, value, None);
    P.EqualsEstimateBounds(h.bins, Representation(h, value), None);
  }

  /**
   * Corrected, the string estimate of every predicate but LIKE and NOT LIKE exists for supported
   * values of a consistent histogram, whether or not a second value is given (outside BETWEEN), and
   * stays within the total count.
   */
  lemma EstimateBounds(h: Histogram, pred: A.PredicateCondition, value: string, value2: Option<string>)
    requires WellFormed(h) && P.Consistent(h.bins)
    requires pred != A.Like && pred != A.NotLike && (pred == A.Between ==> value2.Some?)
    requires Supported(value, h.chars) && |value| <= h.prefixLength
    requires value2.Some? ==> Supported(value2.value, h.chars) && |value2.value| <= h.prefixLength
    ensures EstimateCardinality(h, pred, value, value2).Success?
    ensures EstimateCardinality(h, pred, value, value2).value <= A.TotalCount(h.bins) as real
    ensures pred != A.Between ==> 0.0 <= EstimateCardinality(h, pred, value, value2).value
  {
    EstimateAgrees(h, pred, value, value2);
    P.EstimateBounds(h.bins, pred, Representation(h, value), ReprOption(h, value2));
  }

  /** Where the code as written produces a string estimate, the corrected one agrees. */
  lemma AsWrittenAgrees(h: Histogram, pred: A.PredicateCondition, value: string, value2: Option<string>)
    requires WellFormed(h) && EstimateCardinalityAsWritten(h, pred, value, value2).Success?
    ensures EstimateCardinality(h, pred, value, value2) == EstimateCardinalityAsWritten(h, pred, value, value2)
  {
  }
}
