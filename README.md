# A verified model of Hyrise's statistics, scan, JIT and optimizer kernels

This project models, in Dafny, the sequential core of a fork of the Hyrise in-memory database engine
and two of its Python benchmark-report scripts:

- **Histograms** (`wrappers`, `arithmetic`, `decimal`, `histogram_common`, `histogram_utils`,
  `abstract_histogram`, `equal_num_elements_histogram`, `equal_height_histogram`,
  `equal_width_histogram`, `histogram_kinds`, `string_histogram`, `string_equal_width_histogram`):
  the mapping of strings over a consecutive character range onto integers and back, the string
  successor `next_value`, the wrapping `ipow` and `base_value_for_prefix_length`, the construction
  of equal-num-elements, equal-height and equal-width histograms from sorted value counts, the bin
  lookups, predicate pruning (including `LIKE`/`NOT LIKE` on strings) and the cardinality and
  distinct-count estimates. Histograms are modelled on integer values. The string histograms keep
  their bins as number representations, which order strings within the prefix length as
  `std::string` comparison does (an order-isomorphism lemma); search values of any length are
  compared as strings, and the string-only logic (constructor checks, `LIKE` pruning) works on
  strings. The string equal-width histogram builds its bins by converting representations to strings
  and scanning the value counts with string comparison, proved to give the integer histogram's bins
  on the representations.
- **Table scan and product** (`table_scan`, `pos_list`, `product`): the unary, blocked-bitmask and
  binary scan loops of `BaseTableScanImpl`, each proved equal to a plain filter, and the position
  lists and chunk-pair loop of the `Product` operator.
- **JIT operators** (`jit_types`, `jit_utils`, `jit_expression`, `jit_compute`, `jit_filter`,
  `jit_limit`, `jit_value_ids`, `jit_read_tuples`, `jit_write_offset`): comparison-type swapping and
  variant casts, expression result typing, `compute`, `to_string`, the column-access bookkeeping of
  compute and filter, the limit countdown, tuple-slot allocation with de-duplication, value-id lookups
  in sorted dictionaries, and the output position lists of `JitWriteOffset`.
- **Optimizer** (`logical_expression_reducer`, `cardinality_estimation_cache`,
  `dp_subplan_cache_best`): the OR-factoring rewrite of the logical expression reducer, proved to
  preserve the truth value of every predicate, the cardinality estimation cache with its hit, miss and
  distinct counters, and the per-vertex-set plan cache of the dynamic-programming join orderer.
- **Scripts** (`compare_benchmarks`, `jit_evaluate`): significance gating, per-benchmark change and
  average of `compare_benchmarks.py`; `str2bool`, `combine_results`, `calc_sum` and the experiment
  loop of `jit_evaluate.py`.

Code that updates objects in place is modelled as classes whose methods are proved against pure
specification functions (`PosList`, `OutputTable`, `JitReadTuples`, `JitCompute`, `JitFilter`,
`JitLimit`, `JitWriteOffset`, the cardinality `Cache`, `DpSubplanCacheBest`); loops are methods with
invariants; recursive and expression code is functions and lemmas. Errors the source raises
(assertion failures, failed lookups, Python exceptions) are `Result` failures, and integer widths are
written out where they matter. Where the code and its documentation disagree the model follows the
code; where the code evidently does not do what was intended, both the code as written and the
intended version are modelled (see "Findings").


## Model

| member | source | states |
|---|---|---|
| HistogramCommon.LowerBound | src/lib/statistics/chunk_statistics/histograms/equal_height_histogram.cpp:135 | std::lower_bound: the first position whose element is not below the value, every earlier one below it, the length when there is none |
| HistogramCommon.UpperBound | src/lib/statistics/chunk_statistics/histograms/equal_height_histogram.cpp:146 | std::upper_bound: the first position whose element exceeds the value, every earlier one at most the value, the length when there is none |
| HistogramCommon.LowerBoundPartition | src/lib/statistics/chunk_statistics/histograms/equal_height_histogram.cpp:135-137 | on sorted maxima every element from the lower bound on is at least the value, so the lower bound is the partition point |
| HistogramCommon.UpperBoundPartition | src/lib/statistics/chunk_statistics/histograms/equal_height_histogram.cpp:146-148 | on sorted maxima every element from the upper bound on exceeds the value |
| Decimal.NatToString | src/lib/operators/jit_operator/operators/jit_expression.cpp:32-34 | std::to_string of a tuple or column index: decimal digits without leading zeros |
| Decimal.ParsePrinted | src/lib/operators/jit_operator/operators/jit_expression.cpp:32-34 | the printed digits read back as the number printed |
| Decimal.PrintInjective | src/lib/operators/jit_operator/operators/jit_expression.cpp:32-34 | distinct indices print differently, so the printed names of distinct tuple slots never clash |
| HistogramUtils.IPow | src/lib/statistics/chunk_statistics/histograms/histogram_utils.cpp:35-53 | the result is base^exp reduced modulo 2^64, the unsigned 64-bit wrap-around of every multiplication |
| HistogramUtils.BaseValueForPrefixLength | src/lib/statistics/chunk_statistics/histograms/histogram_utils.cpp:55-61 | the result is 1 + n + n^2 + ... + n^(L-1) modulo 2^64, for n supported characters and prefix length L |
| HistogramUtils.BaseValueIsMaxReprPlusOne | src/lib/statistics/chunk_statistics/histograms/histogram_utils.cpp:55-61 | the base value of prefix length L is one more than the largest representation at length L-1 |
| HistogramUtils.BaseValueStep | src/lib/statistics/chunk_statistics/histograms/histogram_utils.cpp:55-61 | base values follow Horner's rule: Base(L+1) = n * Base(L) + 1 |
| HistogramUtils.CharIndex | src/lib/statistics/chunk_statistics/histograms/histogram_utils.cpp:74 | the offset of a character from the first supported one is its position in the supported characters |
| HistogramUtils.ConvertStringToNumber | src/lib/statistics/chunk_statistics/histograms/histogram_utils.cpp:63-79 | the empty string maps to 0; the conversion succeeds exactly for strings of supported characters, with the recursive representation as value |
| HistogramUtils.ReprOfLongString | src/lib/statistics/chunk_statistics/histograms/histogram_utils.cpp:73-78 | a string longer than the prefix maps to the representation of its prefix plus one |
| HistogramUtils.ReprBound | src/lib/statistics/chunk_statistics/histograms/histogram_utils.cpp:63-79 | strings no longer than the prefix map into 0 .. the representation of the all-last-character string |
| HistogramUtils.ReprOfLastString | src/lib/statistics/chunk_statistics/histograms/histogram_utils.cpp:83-85 | the all-last-character string of full length has the largest representation |
| HistogramUtils.ToStr | src/lib/statistics/chunk_statistics/histograms/histogram_utils.cpp:81-95 | number to string yields a supported string no longer than the prefix, empty exactly for 0 |
| HistogramUtils.ReprOfToStr | src/lib/statistics/chunk_statistics/histograms/histogram_utils.cpp:63-95 | round trip: string-to-number of number-to-string of v is v over the whole valid range |
| HistogramUtils.ToStrOfRepr | src/lib/statistics/chunk_statistics/histograms/histogram_utils.cpp:63-95 | round trip: number-to-string of string-to-number of s is s for every supported string within the prefix |
| HistogramUtils.LexLessIffReprLess | src/test/statistics/chunk_statistics/histograms/histogram_utils_test.cpp:141-150 | order preservation in both directions: s sorts before t exactly when repr(s) < repr(t) |
| HistogramUtils.ToStrIncreasing | src/test/statistics/chunk_statistics/histograms/histogram_utils_test.cpp:141-150 | number-to-string is strictly increasing in lexicographic order over the whole range |
| HistogramUtils.MaxReprOfLetters | src/test/statistics/chunk_statistics/histograms/histogram_utils_test.cpp:141-145 | with 26 letters and prefix length 4 the largest representation ("zzzz") is 475254 |
| HistogramUtils.Next | src/lib/statistics/chunk_statistics/histograms/histogram_utils.cpp:11-28 | the successor of a supported string is supported |
| HistogramUtils.NextValue | src/lib/statistics/chunk_statistics/histograms/histogram_utils.cpp:7-29 | next_value succeeds exactly on supported strings (others fail the assertion) and then computes the successor |
| HistogramUtils.NextUnfold | src/lib/statistics/chunk_statistics/histograms/histogram_utils.cpp:20-28 | a full-length value that is not all last characters increments its last character, or recurses on the shorter prefix when that character is the last one |
| HistogramUtils.NextValueAppending | src/lib/statistics/chunk_statistics/histograms/histogram_utils.cpp:31-33 | the two-argument form succeeds exactly on supported strings and always appends the first supported character |
| HistogramUtils.NextOfShortAndLastValues | src/lib/statistics/chunk_statistics/histograms/histogram_utils.cpp:11-18 | a value shorter than the prefix gets the first character appended; the full-length all-last-character string is its own successor |
| HistogramUtils.NextIncrementsRepr | src/lib/statistics/chunk_statistics/histograms/histogram_utils.cpp:7-29 | for a string within the prefix that is not the largest, the successor's representation is exactly one more |
| HistogramUtils.NextAtDepth | src/lib/statistics/chunk_statistics/histograms/histogram_utils.cpp:20-28 | incrementing a full-length prefix of length k raises the representation at prefix L by the base value of depth L-k+1 |
| HistogramUtils.NextLength | src/lib/statistics/chunk_statistics/histograms/histogram_utils.cpp:11-28 | the successor of a string within the prefix stays within the prefix |
| HistogramUtils.NextIsLexGreater | src/lib/statistics/chunk_statistics/histograms/histogram_utils.cpp:7-29 | the successor of a non-largest string within the prefix sorts strictly after it |
| HistogramUtils.NextOfLongValue | src/lib/statistics/chunk_statistics/histograms/histogram_utils.cpp:20-28 | a value longer than the prefix gets the successor of its prefix, whose representation equals the long value's |
| HistogramUtils.NextOfLongLastValue | src/lib/statistics/chunk_statistics/histograms/histogram_utils.cpp:16-28 | a value longer than the prefix whose prefix is all last characters misses the special case and yields a string one shorter than the prefix |
| HistogramUtils.NextOfZzzzz | src/lib/statistics/chunk_statistics/histograms/histogram_utils.cpp:16-28 | next_value("zzzzz", a..z, 4) is "zzz", which sorts before its input |
| HistogramUtils.PreviousValue | src/test/statistics/chunk_statistics/histograms/histogram_utils_test.cpp:34-48 | the predecessor of a supported string within the prefix is a supported string within the prefix |
| HistogramUtils.NextOfPrevious | src/test/statistics/chunk_statistics/histograms/histogram_utils_test.cpp:34-48 | next_value undoes previous_value on every nonempty string within the prefix |
| AbstractHistogram.BinWidth | src/lib/statistics/chunk_statistics/histograms/abstract_histogram.cpp:223-226 | the width of a bin, next_value(max - min), is at least one value |
| AbstractHistogram.BinForValue | src/lib/statistics/chunk_statistics/histograms/equal_num_elements_histogram.cpp:142-156 | a bin id is returned only for a bin whose min and max enclose the value; otherwise INVALID_BIN_ID (None) |
| AbstractHistogram.UpperBoundForValue | src/lib/statistics/chunk_statistics/histograms/equal_num_elements_histogram.cpp:175-188 | the first bin whose max exceeds the value, with every earlier max at most the value; INVALID exactly when no max exceeds it |
| AbstractHistogram.BinsOrdered | src/lib/statistics/chunk_statistics/histograms/abstract_histogram.cpp:203-211 | every bin lies entirely below every later bin |
| AbstractHistogram.BinWithinRange | src/lib/statistics/chunk_statistics/histograms/abstract_histogram.cpp:203-211 | every bin lies within min() (the first bin's min) and max() (the last bin's max) |
| AbstractHistogram.BinForValueIffInBin | src/lib/statistics/chunk_statistics/histograms/equal_num_elements_histogram.cpp:142-156 | the lookup yields bin i exactly for the values between bin i's min and max |
| AbstractHistogram.BinForValueNone | src/lib/statistics/chunk_statistics/histograms/equal_num_elements_histogram.cpp:150-152 | INVALID_BIN_ID exactly when no bin holds the value |
| AbstractHistogram.UpperBoundOutsideBins | src/lib/statistics/chunk_statistics/histograms/abstract_histogram.cpp:487-496 | for a value in a gap, the upper bound names the bin just above the gap and the previous bin lies below the value; none means the value exceeds max() |
| AbstractHistogram.PrunesBetween | src/lib/statistics/chunk_statistics/histograms/abstract_histogram.cpp:319-361 | BETWEEN prunes when value lies above max(), value2 below min(), value2 below value, both bounds in the same gap, or both in empty bins with only empty bins between them |
| AbstractHistogram.CanPrune | src/lib/statistics/chunk_statistics/histograms/abstract_histogram.cpp:299-363 | Equals prunes outside any bin or in an empty bin, NotEquals only on a single-valued histogram, the orderings against min() and max(), BETWEEN as PrunesBetween and failing without a second value, everything else never |
| AbstractHistogram.BinsEmptyBetween | src/lib/statistics/chunk_statistics/histograms/abstract_histogram.cpp:347-355 | the loop over the bins between the two BETWEEN bounds reports emptiness exactly when each of those bins has count 0 |
| AbstractHistogram.PruningIsSound | src/lib/statistics/chunk_statistics/histograms/abstract_histogram.cpp:298-362 | when _can_prune answers true, no value of a column the histogram covers satisfies the predicate |
| AbstractHistogram.BetweenPruningIsSound | src/lib/statistics/chunk_statistics/histograms/abstract_histogram.cpp:319-358 | every BETWEEN pruning case (bounds outside the range, inverted, in one gap, or in empty bins with empty bins between) excludes every value of a nonempty bin |
| AbstractHistogram.GapHoldsNoValue | src/lib/statistics/chunk_statistics/histograms/abstract_histogram.cpp:338-343 | two BETWEEN bounds in the same gap between bins enclose no value of any bin |
| AbstractHistogram.EmptyBinsHoldNoValue | src/lib/statistics/chunk_statistics/histograms/abstract_histogram.cpp:347-355 | two bounds in empty bins with only empty bins between them enclose no value of a nonempty bin |
| AbstractHistogram.AddCountsBefore | src/lib/statistics/chunk_statistics/histograms/abstract_histogram.cpp:498-501 | the summation loop adds exactly the counts of the bins before the given bin |
| AbstractHistogram.EqualsCardinality | src/lib/statistics/chunk_statistics/histograms/abstract_histogram.cpp:469-477 | the Equals case: the bin's count spread over its distinct values; no bin, or a bin without distinct values, fails |
| AbstractHistogram.LessThanCardinality | src/lib/statistics/chunk_statistics/histograms/abstract_histogram.cpp:480-518 | the LessThan case: the total above max(), a failure below min(), else the share of the value's bin below it plus the earlier bins (in a gap, the bins below it), capped at the total count |
| AbstractHistogram.EstimateCardinality | src/lib/statistics/chunk_statistics/histograms/abstract_histogram.cpp:462-542 | corrected _estimate_cardinality: 0 when prunable, Equals and LessThan directly, <=, >=, > and != through them and the total, BETWEEN as a difference, LIKE and NOT LIKE fail, the rest estimate the total |
| AbstractHistogram.EstimateCardinalityAsWritten | src/lib/statistics/chunk_statistics/histograms/abstract_histogram.cpp:462-542 | _estimate_cardinality as written: fails without a second value, and so in every case that recurses |
| AbstractHistogram.EstimateSelectivity | src/lib/statistics/chunk_statistics/histograms/abstract_histogram.cpp:615-619 | the cardinality estimate over the total count, failing for a total of zero |
| AbstractHistogram.EstimateLessThan | src/lib/statistics/chunk_statistics/histograms/abstract_histogram.cpp:480-518 | the LessThan case computes the share of the containing bin plus all earlier bins, capped at total_count(), as the LessThan specification |
| AbstractHistogram.AddDistinctCountsBefore | src/lib/statistics/chunk_statistics/histograms/abstract_histogram.cpp:654-657 | the distinct summation loop adds exactly the distinct counts of the bins before the given bin |
| AbstractHistogram.EstimateDistinctLessThan | src/lib/statistics/chunk_statistics/histograms/abstract_histogram.cpp:639-660 | the LessThan case of estimate_distinct_count equals its specification |
| AbstractHistogram.EstimateDistinctCount | src/lib/statistics/chunk_statistics/histograms/abstract_histogram.cpp:621-684 | estimate_distinct_count: 0 when prunable, 1 for Equals, the distinct total (less one when the value lies in a bin) for !=, the distinct LessThan share, the other orderings and BETWEEN through it |
| AbstractHistogramProperties.ShareBounds | src/lib/statistics/chunk_statistics/histograms/abstract_histogram.cpp:252-255 | _bin_share of a value inside the bin lies in [0, 1) |
| AbstractHistogramProperties.LessThanCardinalityBounds | src/lib/statistics/chunk_statistics/histograms/abstract_histogram.cpp:480-518 | from min() on, the LessThan estimate exists and lies between 0 and total_count() |
| AbstractHistogramProperties.EqualsCardinalityBounds | src/lib/statistics/chunk_statistics/histograms/abstract_histogram.cpp:469-477 | the Equals estimate, count over distinct count of the value's bin, lies between 0 and total_count() |
| AbstractHistogramProperties.EqualsEstimateBounds | src/lib/statistics/chunk_statistics/histograms/abstract_histogram.cpp:462-477 | Equals always estimates, with a result between 0 and total_count() |
| AbstractHistogramProperties.LessThanEstimateBounds | src/lib/statistics/chunk_statistics/histograms/abstract_histogram.cpp:480-518 | LessThan always estimates, with a result between 0 and total_count() |
| AbstractHistogramProperties.NotEqualsEstimateBounds | src/lib/statistics/chunk_statistics/histograms/abstract_histogram.cpp:478-479 | NotEquals, total_count() minus the Equals estimate, lies between 0 and total_count() |
| AbstractHistogramProperties.LessThanEqualsEstimateBounds | src/lib/statistics/chunk_statistics/histograms/abstract_histogram.cpp:519-520 | LessThanEquals always estimates, between 0 and total_count() |
| AbstractHistogramProperties.GreaterThanEqualsEstimateBounds | src/lib/statistics/chunk_statistics/histograms/abstract_histogram.cpp:521-522 | GreaterThanEquals always estimates, between 0 and total_count() |
| AbstractHistogramProperties.GreaterThanEstimateBounds | src/lib/statistics/chunk_statistics/histograms/abstract_histogram.cpp:523-524 | GreaterThan always estimates, between 0 and total_count() |
| AbstractHistogramProperties.BetweenEstimateBounds | src/lib/statistics/chunk_statistics/histograms/abstract_histogram.cpp:525-534 | BETWEEN with its second value estimates a result of at most total_count() |
| AbstractHistogramProperties.EstimateBounds | src/lib/statistics/chunk_statistics/histograms/abstract_histogram.cpp:462-544 | every non-LIKE estimate exists (BETWEEN given its second value) and is at most total_count(); all but BETWEEN are nonnegative |
| AbstractHistogramProperties.PrunedEstimatesZero | src/lib/statistics/chunk_statistics/histograms/abstract_histogram.cpp:464-466 | a prunable predicate estimates 0 rows and 0 distinct values |
| AbstractHistogramProperties.LessThanEqualsIsLessThanNext | src/lib/statistics/chunk_statistics/histograms/abstract_histogram.cpp:519-520 | x <= v is estimated (rows and distinct values) as x < next_value(v) |
| AbstractHistogramProperties.LessThanAndAtLeastPartition | src/lib/statistics/chunk_statistics/histograms/abstract_histogram.cpp:521-522 | the estimates of x < v and x >= v add up to total_count() for every v |
| AbstractHistogramProperties.AtMostAndGreaterThanPartition | src/lib/statistics/chunk_statistics/histograms/abstract_histogram.cpp:523-524 | the estimates of x <= v and x > v add up to total_count() for every v |
| AbstractHistogramProperties.EqualsAndNotEqualsPartition | src/lib/statistics/chunk_statistics/histograms/abstract_histogram.cpp:469-479 | unless the histogram holds only v, the estimates of x = v and x != v add up to total_count() |
| AbstractHistogramProperties.SelectivityBounds | src/lib/statistics/chunk_statistics/histograms/abstract_histogram.cpp:615-619 | every non-LIKE, non-BETWEEN selectivity lies in [0, 1] |
| AbstractHistogramProperties.AsWrittenNeedsValue2 | src/lib/statistics/chunk_statistics/histograms/abstract_histogram.cpp:464 | as written, every estimate without a second value dereferences the empty optional |
| AbstractHistogramProperties.AsWrittenFailsOnLessThanEquals | src/lib/statistics/chunk_statistics/histograms/abstract_histogram.cpp:519-520 | as written, x <= v fails even with a second value (the recursive call passes none), where the corrected estimate exists |
| AbstractHistogramProperties.AsWrittenAgrees | src/lib/statistics/chunk_statistics/histograms/abstract_histogram.cpp:462-544 | wherever the code as written yields an estimate, the corrected estimate is the same |
| AbstractHistogramProperties.DistinctLessThanExists | src/lib/statistics/chunk_statistics/histograms/abstract_histogram.cpp:639-660 | from min() on, the distinct LessThan estimate exists and is nonnegative |
| AbstractHistogramProperties.DistinctLessThanAndAtLeastPartition | src/lib/statistics/chunk_statistics/histograms/abstract_histogram.cpp:663-664 | the distinct estimates of x < v and x >= v add up to total_count_distinct() |
| EqualNumElementsHistogram.BinBeginClosedForm | src/lib/statistics/chunk_statistics/histograms/equal_num_elements_histogram.cpp:51-67 | bin i begins at i * distinct_count_per_bin plus one extra value for each earlier bin with an extra value |
| EqualNumElementsHistogram.BinsCoverValues | src/lib/statistics/chunk_statistics/histograms/equal_num_elements_histogram.cpp:40-45 | with values and a positive bin limit there is at least one bin, and every bin begins inside value_counts |
| EqualNumElementsHistogram.BinRunInRange | src/lib/statistics/chunk_statistics/histograms/equal_num_elements_histogram.cpp:52-67 | each bin is a nonempty run of value_counts, and the next run starts right after it |
| EqualNumElementsHistogram.GetBinStats | src/lib/statistics/chunk_statistics/histograms/equal_num_elements_histogram.cpp:36-71 | the loop produces exactly the bin stats of the input: min and max of each run, the summed counts, per-bin and extra distinct counts |
| EqualNumElementsHistogram.Generate | src/lib/statistics/chunk_statistics/histograms/equal_num_elements_histogram.cpp:223-259 | the two-column form appends the same bin stats as for the zipped (value, count) pairs |
| EqualNumElementsHistogram.BinStatsUnique | src/lib/statistics/chunk_statistics/histograms/equal_num_elements_histogram.cpp:223-259 | the bin stats of an input are unique, so both construction paths build the same bins |
| EqualNumElementsHistogram.BinCountsOfStats | src/lib/statistics/chunk_statistics/histograms/equal_num_elements_histogram.cpp:40-45 | the number of bins is min(distinct values, max_num_bins); per_bin * num_bins + extra = distinct values = total_count_distinct() |
| EqualNumElementsHistogram.StatsBin | src/lib/statistics/chunk_statistics/histograms/equal_num_elements_histogram.cpp:58-65 | bin i's min, max and count are the first value, the last value and the summed occurrences of run i |
| EqualNumElementsHistogram.DistinctCountsPrefix | src/lib/statistics/chunk_statistics/histograms/equal_num_elements_histogram.cpp:208-211 | the distinct counts of the first k bins add up to the begin index of bin k |
| EqualNumElementsHistogram.BinCountDistinctIsRunLength | src/lib/statistics/chunk_statistics/histograms/equal_num_elements_histogram.cpp:208-211 | _bin_count_distinct(i) = per_bin + (i < extra ? 1 : 0) is the length of run i, and all of them sum to the number of distinct values |
| EqualNumElementsHistogram.CountsPrefix | src/lib/statistics/chunk_statistics/histograms/equal_num_elements_histogram.cpp:63-65 | the counts of the first k bins are the summed occurrences of the entries those bins cover |
| EqualNumElementsHistogram.TotalCountOfStats | src/lib/statistics/chunk_statistics/histograms/equal_num_elements_histogram.cpp:213-216 | total_count() equals the sum of all occurrence counts of value_counts |
| EqualNumElementsHistogram.StatsAreWellFormed | src/lib/statistics/chunk_statistics/histograms/equal_num_elements_histogram.cpp:51-68 | on sorted input the bins are nonempty intervals each lying below the next |
| EqualNumElementsHistogram.BinForValue | src/lib/statistics/chunk_statistics/histograms/equal_num_elements_histogram.cpp:142-156 | a bin is returned only when its min and max enclose the value; otherwise INVALID_BIN_ID |
| EqualNumElementsHistogram.LowerBoundForValue | src/lib/statistics/chunk_statistics/histograms/equal_num_elements_histogram.cpp:158-172 | the first bin whose max is not less than the value, every earlier max below it; INVALID exactly when all maxes are below |
| EqualNumElementsHistogram.UpperBoundForValue | src/lib/statistics/chunk_statistics/histograms/equal_num_elements_histogram.cpp:174-188 | the first bin whose max is greater than the value, every earlier max at most it; INVALID exactly when no max is greater |
| EqualNumElementsHistogram.BinForValueIffInBin | src/lib/statistics/chunk_statistics/histograms/equal_num_elements_histogram.cpp:142-156 | values in gaps, below the first bin or above the last give INVALID_BIN_ID; a value inside bin i gives i |
| EqualHeightHistogram.Start | src/lib/statistics/chunk_statistics/histograms/equal_height_histogram.cpp:54-65 | the begin index after the last bin is the sum of all distinct counts |
| EqualHeightHistogram.OpenRunStep | src/lib/statistics/chunk_statistics/histograms/equal_height_histogram.cpp:56-66 | adding one value keeps the bin open while its height is below count_per_bin and closes it at the first value where the height reaches it |
| EqualHeightHistogram.AppendClosed | src/lib/statistics/chunk_statistics/histograms/equal_height_histogram.cpp:59-66 | closing a bin at the current value records that value as max and the run length as distinct count, keeping the loop invariant |
| EqualHeightHistogram.FinishBins | src/lib/statistics/chunk_statistics/histograms/equal_height_histogram.cpp:69-74 | a positive leftover height becomes a last bin ending at the largest value; a zero leftover adds no bin |
| EqualHeightHistogram.GetBinStats | src/lib/statistics/chunk_statistics/histograms/equal_height_histogram.cpp:33-77 | the result has the smallest value as min, the summed counts as total, and bins closed exactly where the running height first reaches ceil(total / num_bins) |
| EqualHeightHistogram.CountPerBinCovers | src/lib/statistics/chunk_statistics/histograms/equal_height_histogram.cpp:42-47 | count_per_bin is rounded up, so num_bins * count_per_bin covers the total, and it is positive for a positive total |
| EqualHeightHistogram.DistinctCountsSumToValues | src/lib/statistics/chunk_statistics/histograms/equal_height_histogram.cpp:61-74 | with positive counts the distinct counts add up to the number of distinct values |
| EqualHeightHistogram.BinsWithinRequest | src/lib/statistics/chunk_statistics/histograms/equal_height_histogram.cpp:37-46 | the number of bins produced never exceeds min(max_num_bins, distinct values) |
| EqualHeightHistogram.MaxsIncreasing | src/lib/statistics/chunk_statistics/histograms/equal_height_histogram.cpp:56-74 | on sorted input the bin maxima are strictly increasing |
| EqualHeightHistogram.BinCount | src/lib/statistics/chunk_statistics/histograms/equal_height_histogram.cpp:174-179 | every bin reports ceil(total_count / num_bins), so the bins together report at least total_count |
| EqualHeightHistogram.BinForValue | src/lib/statistics/chunk_statistics/histograms/equal_height_histogram.cpp:129-142 | a returned bin is one whose max is not below the value |
| EqualHeightHistogram.UpperBoundForValue | src/lib/statistics/chunk_statistics/histograms/equal_height_histogram.cpp:144-154 | the first bin whose max is greater than the value, with every earlier max at most the value; INVALID exactly when none is greater |
| EqualHeightHistogram.StatsAreWellFormed | src/lib/statistics/chunk_statistics/histograms/equal_height_histogram.cpp:33-77 | bins built from sorted input, with _bin_min(0) = _min and _bin_min(i) = next_value(maxs[i-1]), are nonempty intervals each below the next |
| EqualHeightHistogram.BinForValueIffInBin | src/lib/statistics/chunk_statistics/histograms/equal_height_histogram.cpp:129-142 | the bins tile [_min, last max]: the lookup yields bin i exactly for the values between _bin_min(i) and _bin_max(i) |
| EqualHeightHistogram.BinForValueNone | src/lib/statistics/chunk_statistics/histograms/equal_height_histogram.cpp:131-139 | INVALID_BIN_ID exactly for a value below _min or above the last max |
| EqualWidthHistogram.BinBeginClosedForm | src/lib/statistics/chunk_statistics/histograms/equal_width_histogram.cpp:62-74 | the begin value of bin i is min + i * bin_width + min(i, num_bins_with_larger_range) |
| EqualWidthHistogram.BinBeginWide | src/lib/statistics/chunk_statistics/histograms/equal_width_histogram.cpp:69-73 | up to bin num_bins_with_larger_range every bin is bin_width + 1 values wide |
| EqualWidthHistogram.BinBeginNarrow | src/lib/statistics/chunk_statistics/histograms/equal_width_histogram.cpp:66-67 | from bin num_bins_with_larger_range on every bin is bin_width values wide |
| EqualWidthHistogram.BinBeginLast | src/lib/statistics/chunk_statistics/histograms/equal_width_histogram.cpp:43-55 | the bins end exactly at max: num_bins * (base / num_bins) + base mod num_bins = base width |
| EqualWidthHistogram.FillBins | src/lib/statistics/chunk_statistics/histograms/equal_width_histogram.cpp:60-99 | the bin loop records for each bin the summed counts and the number of distinct values from its start to the end of its value range |
| EqualWidthHistogram.GetBinStats | src/lib/statistics/chunk_statistics/histograms/equal_width_histogram.cpp:37-102 | base width max - min + 1, num_bins = min(max_num_bins, base width), extra = base mod num_bins, and the bin counts of those ranges |
| EqualWidthHistogram.Generate | src/lib/statistics/chunk_statistics/histograms/equal_width_histogram.cpp:377-424 | the two-column form builds the same ranges with the bins capped at the number of distinct values |
| EqualWidthHistogram.SortedSpan | src/lib/statistics/chunk_statistics/histograms/equal_width_histogram.cpp:385 | strictly increasing integers span at least as many values as there are of them |
| EqualWidthHistogram.GenerateAgreesWithStats | src/lib/statistics/chunk_statistics/histograms/equal_width_histogram.cpp:377-424 | with at most as many requested bins as distinct values, _generate builds the same bins as _get_bin_stats (in both directions) |
| EqualWidthHistogram.StatsCoverValues | src/lib/statistics/chunk_statistics/histograms/equal_width_histogram.cpp:62-99 | the bins' value ranges start at min and end at max, and their runs start at the front of value_counts and end at its back |
| EqualWidthHistogram.PositionInBinIffValueInRange | src/lib/statistics/chunk_statistics/histograms/equal_width_histogram.cpp:86-95 | a distinct value is counted in bin i exactly when its value lies in bin i's range |
| EqualWidthHistogram.EveryValueInOneBin | src/lib/statistics/chunk_statistics/histograms/equal_width_histogram.cpp:86-95 | every distinct value is counted in exactly one bin (empty bins are allowed) |
| EqualWidthHistogram.PrefixSums | src/lib/statistics/chunk_statistics/histograms/equal_width_histogram.cpp:92-95 | the counts and distinct counts of the first k bins are the occurrences and the number of values up to where bin k begins |
| EqualWidthHistogram.TotalsOfStats | src/lib/statistics/chunk_statistics/histograms/equal_width_histogram.cpp:236-244 | total_count() is all occurrences and total_count_distinct() the number of distinct values |
| EqualWidthHistogram.BinMinAsWrittenOffset | src/lib/statistics/chunk_statistics/histograms/equal_width_histogram.cpp:289-300 | _bin_min as written exceeds the begin value used by _get_bin_stats by i for 0 < i < num_bins_with_larger_range and agrees elsewhere |
| EqualWidthHistogram.BinMinAsWrittenExample | src/lib/statistics/chunk_statistics/histograms/equal_width_histogram.cpp:289-300 | values 0..9 in four bins are [0,2], [3,5], [6,7], [8,9]; _bin_min(1) as written is 4 |
| EqualWidthHistogram.BinMaxIsNextBeginMinusOne | src/lib/statistics/chunk_statistics/histograms/equal_width_histogram.cpp:257-313 | corrected (see Findings): _bin_max is the value just before the next bin's begin (the last bin ends at _max), and _bin_width is max - min + 1 of each bin |
| EqualWidthHistogram.BinWidthPositive | src/lib/statistics/chunk_statistics/histograms/equal_width_histogram.cpp:45-50 | there are no more bins than values, so the common width is positive and fewer bins than all are wider |
| EqualWidthHistogram.BinForValue | src/lib/statistics/chunk_statistics/histograms/equal_width_histogram.cpp:315-329 | INVALID exactly outside [_min, _max]; otherwise the returned bin's range holds the value |
| EqualWidthHistogram.BinForValueWide | src/lib/statistics/chunk_statistics/histograms/equal_width_histogram.cpp:321-324 | up to the last wider bin, the offset divided by the width of bin 0 names the bin holding the value |
| EqualWidthHistogram.BinForValueNarrow | src/lib/statistics/chunk_statistics/histograms/equal_width_histogram.cpp:326-328 | after the last wider bin, extra + offset from bin extra divided by its width names the bin holding the value |
| EqualWidthHistogram.BinForValueIffInBin | src/lib/statistics/chunk_statistics/histograms/equal_width_histogram.cpp:315-329 | the lookup yields bin i exactly for the values of bin i's range |
| EqualWidthHistogram.LowerBoundForValue | src/lib/statistics/chunk_statistics/histograms/equal_width_histogram.cpp:350-361 | bin 0 below _min, otherwise the value's bin |
| EqualWidthHistogram.UpperBoundForValue | src/lib/statistics/chunk_statistics/histograms/equal_width_histogram.cpp:363-375 | bin 0 below _min; INVALID above _max |
| EqualWidthHistogram.UpperBoundForValueCases | src/lib/statistics/chunk_statistics/histograms/equal_width_histogram.cpp:373-374 | the next bin is returned only up to the third-to-last bin, INVALID in the last two; with one bin the size_t subtraction wraps and a value in range gets 1 |
| EqualWidthHistogram.SizeMinusTwo | src/lib/statistics/chunk_statistics/histograms/equal_width_histogram.cpp:374 | num_bins() - 2 in size_t is exact from two bins on and the largest size_t for one bin |
| EqualWidthHistogram.StatsAreWellFormed | src/lib/statistics/chunk_statistics/histograms/equal_width_histogram.cpp:37-102 | a histogram built by _get_bin_stats is well formed |
| EqualWidthHistogram.GeneratedIsWellFormed | src/lib/statistics/chunk_statistics/histograms/equal_width_histogram.cpp:377-424 | a histogram built by _generate from sorted values is well formed |
| HistogramKinds.EqualNumElementsViewWellFormed | src/lib/statistics/chunk_statistics/histograms/equal_num_elements_histogram.cpp:190-221 | the accessors of a well-formed equal-num-elements histogram present ordered, non-overlapping bins |
| HistogramKinds.EqualHeightViewWellFormed | src/lib/statistics/chunk_statistics/histograms/equal_height_histogram.cpp:156-195 | the accessors of an equal-height histogram (_bin_min from the previous max) present ordered, non-overlapping bins |
| HistogramKinds.EqualWidthViewWellFormed | src/lib/statistics/chunk_statistics/histograms/equal_width_histogram.cpp:230-313 | corrected (see Findings): the accessors of an equal-width histogram, with _bin_min the begin value _get_bin_stats used, present ordered, non-overlapping bins |
| HistogramKinds.ViewWellFormed | src/lib/statistics/chunk_statistics/histograms/abstract_histogram.cpp:203-211 | corrected (see Findings) for the equal-width kind: whatever its kind, a well-formed histogram presents well-formed bins with its own bin count to the shared estimators |
| HistogramKinds.ViewBinForValue | src/lib/statistics/chunk_statistics/histograms/equal_height_histogram.cpp:129-142 | each kind's _bin_for_value (equal-num-elements, equal-height, equal-width) is the shared lookup on its bins |
| HistogramKinds.ViewUpperBoundForValue | src/lib/statistics/chunk_statistics/histograms/equal_width_histogram.cpp:363-375 | the kinds' _upper_bound_for_value agree with the shared one wherever the estimators consult it (values no bin holds) |
| HistogramKinds.EqualNumElementsConsistent | src/lib/statistics/chunk_statistics/histograms/equal_num_elements_histogram.cpp:36-71 | equal-num-elements bins report at most the total in a bin and a distinct value for every nonempty bin |
| HistogramKinds.EqualNumElementsCovers | src/lib/statistics/chunk_statistics/histograms/equal_num_elements_histogram.cpp:36-71 | every value of value_counts lies in a nonempty equal-num-elements bin |
| HistogramKinds.EqualNumElementsBinOf | src/lib/statistics/chunk_statistics/histograms/equal_num_elements_histogram.cpp:52-67 | the bin whose run holds position j holds its value and has a positive count |
| HistogramKinds.CountPerBinAtMostTotal | src/lib/statistics/chunk_statistics/histograms/equal_height_histogram.cpp:42-47 | ceil(total / num_bins) never exceeds the total |
| HistogramKinds.EqualHeightCovers | src/lib/statistics/chunk_statistics/histograms/equal_height_histogram.cpp:33-77 | the equal-height bins are consistent and hold every value of value_counts |
| HistogramKinds.EqualHeightConsistent | src/lib/statistics/chunk_statistics/histograms/equal_height_histogram.cpp:174-185 | every equal-height bin reports at most the total, and a nonempty bin has a distinct value |
| HistogramKinds.EqualHeightLastMax | src/lib/statistics/chunk_statistics/histograms/equal_height_histogram.cpp:69-74 | the last equal-height bin ends at the largest value |
| HistogramKinds.EqualHeightValueOccurs | src/lib/statistics/chunk_statistics/histograms/equal_height_histogram.cpp:156-179 | with a positive total, every value in [_min, last max] lies in a bin reporting a positive count |
| HistogramKinds.EqualWidthCovers | src/lib/statistics/chunk_statistics/histograms/equal_width_histogram.cpp:37-102 | corrected (see Findings): the equal-width bins of sorted input, with _bin_min the begin value _get_bin_stats used, are consistent and hold every value of value_counts |
| HistogramKinds.EqualWidthShareOffset | src/lib/statistics/chunk_statistics/histograms/abstract_histogram.cpp:252-255 | _bin_share of an equal-width bin measured from _bin_min as written falls short of the share from the bin's true begin by index / _bin_width in the wider bins after the first, and equals it elsewhere |
| HistogramKinds.EqualWidthLessThanAsWrittenAgrees | src/lib/statistics/chunk_statistics/histograms/abstract_histogram.cpp:480-516 | the equal-width LessThan estimate as written (kind's own lookups, _bin_share from _bin_min as written) succeeds exactly when the one on the laid-out bins does, is never above it, and equals it unless the value lies in a wider bin after the first |
| HistogramKinds.EqualWidthDistinctLessThanAsWrittenAgrees | src/lib/statistics/chunk_statistics/histograms/abstract_histogram.cpp:639-660 | the same for the LessThan case of estimate_distinct_count |
| HistogramKinds.EqualWidthAsWrittenExample | src/lib/statistics/chunk_statistics/histograms/equal_width_histogram.cpp:289-300 | min 0, max 9, counts 3, 3, 2, 2 in four bins: for x < 4 the source estimates 3 rows, the laid-out bins [0, 2], [3, 5], [6, 7], [8, 9] give 4 |
| StringHistogram.ValidSettingsFit | src/lib/statistics/chunk_statistics/histograms/abstract_histogram.cpp:36-47 | under the constructor's checks (positive prefix length, more than one character, (n+1)^L below 2^63, consecutive ascending characters) the largest representation and that of every supported string within the prefix length fit into a signed 64-bit integer |
| StringHistogram.SettingsAsWrittenAcceptOverflow | src/lib/statistics/chunk_statistics/histograms/abstract_histogram.cpp:42 | the constructor test as written, with ipow wrapping at 2^64, accepts ten digits with prefix length 20, whose largest representation exceeds 2^64 |
| StringHistogram.MinString | src/lib/statistics/chunk_statistics/histograms/abstract_histogram.cpp:202-205 | min() is a supported string within the prefix length whose representation is the minimum of the bins |
| StringHistogram.MaxString | src/lib/statistics/chunk_statistics/histograms/abstract_histogram.cpp:207-210 | max() is a supported string within the prefix length whose representation is the maximum of the bins |
| StringHistogram.AllowedIsSupported | src/lib/statistics/chunk_statistics/histograms/abstract_histogram.cpp:376-382 | for predicates other than LIKE and NOT LIKE the allowed characters are the supported ones (wildcards only for LIKE and NOT LIKE) |
| StringHistogram.LikePrefixPrunesAsWritten | src/lib/statistics/chunk_statistics/histograms/abstract_histogram.cpp:407-416 | as written: the prefix is the pattern up to the first '%' cut to the prefix length, and the bins are searched for [prefix, next_value(prefix)) |
| StringHistogram.LikePrefixPrunes | src/lib/statistics/chunk_statistics/histograms/abstract_histogram.cpp:407-416 | corrected: the prefix ends at the first wildcard of either kind; an empty prefix never prunes, a prefix of last characters prunes only above max(), else the range [prefix, next_value(prefix)) is searched |
| StringHistogram.NotLikePrefixPrunesAsWritten | src/lib/statistics/chunk_statistics/histograms/abstract_histogram.cpp:445-455 | as written: the pattern before its first '%' is a prefix of both min() and max() |
| StringHistogram.NotLikePrefixPrunes | src/lib/statistics/chunk_statistics/histograms/abstract_histogram.cpp:445-455 | corrected: additionally everything after that '%' is '%', so every value in range matches |
| StringHistogram.CanPrune | src/lib/statistics/chunk_statistics/histograms/abstract_histogram.cpp:371-459 | corrected (see Findings): string can_prune answers only when the search value passes the character check; the range checks of _can_prune compare a search value of any length with the bounds as std::string comparison does (through its position: twice the representation within the prefix length, just above its prefix beyond it); BETWEEN prunes a value above max() before it checks value2's characters; LIKE cuts the prefix at the first wildcard of either kind and prunes only when no value can start with it, NOT LIKE only when every value in the bin's range matches |
| StringHistogram.EstimateCardinality | src/lib/statistics/chunk_statistics/histograms/abstract_histogram.cpp:552-613 | corrected string estimate_cardinality: the character check, 0 when prunable, LIKE without a wildcard as Equals, '%' as the total, a prefix search as LessThan(next_value(prefix)) - LessThan(prefix), NOT LIKE as its complement, the rest the numeric cases with range checks and bin lookups comparing strings (positions) and the bin share measured on representations |
| StringHistogram.EstimateCardinalityAsWritten | src/lib/statistics/chunk_statistics/histograms/abstract_histogram.cpp:552-613 | as written: after the character check it fails without a second value, and so in every case that recurses |
| StringHistogram.AsWrittenNeedsValue2 | src/lib/statistics/chunk_statistics/histograms/abstract_histogram.cpp:563 | as written, every string estimate without a second value fails |
| StringHistogram.AsWrittenFailsOnEquals | src/lib/statistics/chunk_statistics/histograms/abstract_histogram.cpp:563-577 | as written, Equals without a second value (the call LIKE without a wildcard makes) fails, while the corrected estimate exists for a consistent histogram |
| StringHistogram.EstimateBounds | src/lib/statistics/chunk_statistics/histograms/abstract_histogram.cpp:552-613 | corrected, every predicate but LIKE and NOT LIKE has a string estimate within the total count, nonnegative outside BETWEEN, with or without a second value |
| StringHistogram.AsWrittenAgrees | src/lib/statistics/chunk_statistics/histograms/abstract_histogram.cpp:552-613 | wherever the code as written yields a string estimate, the corrected estimate is the same |
| StringHistogram.EstimateSelectivity | src/lib/statistics/chunk_statistics/histograms/abstract_histogram.cpp:615-619 | the string cardinality estimate over the total count, failing for a total of zero |
| StringHistogram.EstimateDistinctCount | src/lib/statistics/chunk_statistics/histograms/abstract_histogram.cpp:621-684 | estimate_distinct_count for strings: the numeric template with the string can_prune, lookups comparing strings (positions) and shares on representations, <= through the appended first character |
| StringHistogram.UnsupportedCharactersFail | src/lib/statistics/chunk_statistics/histograms/abstract_histogram.cpp:382 | a search value with a character outside the allowed set fails can_prune, estimate_cardinality, estimate_selectivity and estimate_distinct_count with "Unsupported characters." |
| StringHistogram.LikeWithoutWildcardIsEquals | src/lib/statistics/chunk_statistics/histograms/abstract_histogram.cpp:386-388 | LIKE without a wildcard prunes and estimates exactly as Equals |
| StringHistogram.NotLikeWithoutWildcardIsNotEquals | src/lib/statistics/chunk_statistics/histograms/abstract_histogram.cpp:423-425 | NOT LIKE without a wildcard prunes and estimates exactly as NotEquals |
| StringHistogram.LikeMatchLiteral | src/lib/statistics/chunk_statistics/histograms/abstract_histogram.cpp:386-388 | a pattern without wildcards matches exactly the string equal to it, which is why LIKE may fall back to Equals |
| StringHistogram.LeadingMatchAllIsNeverPruned | src/lib/statistics/chunk_statistics/histograms/abstract_histogram.cpp:393-396 | a LIKE pattern starting with % is never pruned |
| StringHistogram.MatchAllPatterns | src/lib/statistics/chunk_statistics/histograms/abstract_histogram.cpp:428-430 | NOT LIKE '%' is pruned with estimate 0, LIKE '%' is not pruned and estimates total_count() |
| StringHistogram.LikePruningIsSound | src/lib/statistics/chunk_statistics/histograms/abstract_histogram.cpp:398-418 | when LIKE is pruned, no supported string within the prefix length that matches the pattern occurs in any bin |
| StringHistogram.NotLikePruningIsSound | src/lib/statistics/chunk_statistics/histograms/abstract_histogram.cpp:432-452 | when NOT LIKE is pruned, every supported string within the prefix length occurring in a bin matches the pattern, so no row satisfies NOT LIKE |
| StringHistogram.NotLikePrefixAsWrittenPrunesMatchingRow | src/lib/statistics/chunk_statistics/histograms/abstract_histogram.cpp:445-451 | as written, NOT LIKE 'c%foo' on values from "car" to "crime" is pruned although "car" does not match the pattern |
| StringHistogram.LikePrefixAsWrittenPrunesLastPrefix | src/lib/statistics/chunk_statistics/histograms/abstract_histogram.cpp:409-416 | as written, LIKE 'z%' over "xyz" with prefix length 1 prunes a bin holding "z", because next_value of "z" at length 1 is "z" |
| StringHistogram.LikePrefixAsWrittenPrunesSingleCharacterWildcard | src/lib/statistics/chunk_statistics/histograms/abstract_histogram.cpp:409-416 | as written, LIKE 'b_%' reads '_' as a character and prunes a bin holding "ba", which matches |
| StringHistogram.AppendFirstIsNext | src/lib/statistics/chunk_statistics/histograms/abstract_histogram.cpp:243-245 | get_next_value appends the first supported character, which adds one to the representation |
| StringHistogram.CanPruneAgrees | src/lib/statistics/chunk_statistics/histograms/abstract_histogram.cpp:456-457 | for search values within the prefix length (and a BETWEEN value2 within it), apart from LIKE and NOT LIKE, string pruning is the numeric pruning of the representations |
| StringHistogram.EstimateAgrees | src/lib/statistics/chunk_statistics/histograms/abstract_histogram.cpp:552-613 | for search values within the prefix length, the string estimate of every predicate other than LIKE and NOT LIKE, Between included, is the numeric estimate of the representations |
| StringHistogram.DistinctCountAgrees | src/lib/statistics/chunk_statistics/histograms/abstract_histogram.cpp:621-684 | for search values within the prefix length, the string distinct-count estimate of every predicate other than LIKE and NOT LIKE is the numeric one on representations |
| StringHistogram.LongStringOrder | src/lib/statistics/chunk_statistics/histograms/abstract_histogram.cpp:311-318 | std::string comparison of a string longer than the prefix length with one within it: below exactly what its prefix is below, above everything up to and including its prefix |
| StringHistogram.PositionOrder | src/lib/statistics/chunk_statistics/histograms/abstract_histogram.cpp:311-318 | against a string within the prefix length, comparing positions orders supported strings of any length as std::string comparison does (less, greater and equal) |
| StringHistogram.PositionLessIsLexLess | src/lib/statistics/chunk_statistics/histograms/abstract_histogram.cpp:311-318 | a smaller position means a smaller string whatever the lengths |
| StringHistogram.DoubledLookups | src/lib/statistics/chunk_statistics/histograms/equal_height_histogram.cpp:129-142 | the bin lookups on the doubled bounds at twice a representation find what they find on the bounds at the representation |
| StringHistogram.OccursAtPosition | src/lib/statistics/chunk_statistics/histograms/abstract_histogram.cpp:311-318 | a string within the prefix length occurring in the bins occurs at its position in the doubled bins, at most their max |
| StringHistogram.PruningIsSound | src/lib/statistics/chunk_statistics/histograms/abstract_histogram.cpp:371-459 | for every predicate but LIKE and NOT LIKE and search values of any length: when can_prune prunes, no supported string within the prefix length occurring in the bins satisfies the predicate under std::string comparison |
| StringHistogram.BetweenPruningIsSound | src/lib/statistics/chunk_statistics/histograms/abstract_histogram.cpp:318-324 | a pruned BETWEEN excludes every occurring string between value and value2 under std::string comparison |
| StringHistogram.BetweenAboveMaxPrunes | src/lib/statistics/chunk_statistics/histograms/abstract_histogram.cpp:318-324 | BETWEEN with value above max() as a string prunes whatever value2 is; with value not above max(), an unsupported value2 fails |
| StringHistogram.LongValueComparesAsString | src/lib/statistics/chunk_statistics/histograms/abstract_histogram.cpp:311-318 | with characters "abc", prefix length 2 and min "ac", x <= "aba" is pruned, as "aba" < "ac", while numeric pruning of their equal representations does not prune |
| StringHistogram.LikeLiteralPruningIsSound | src/lib/statistics/chunk_statistics/histograms/abstract_histogram.cpp:386-388 | LIKE without a wildcard, when pruned, excludes the one string it matches |
| StringHistogram.LikePrefixPruningIsSound | src/lib/statistics/chunk_statistics/histograms/abstract_histogram.cpp:398-418 | LIKE with a wildcard, when pruned, excludes every string matching it, all of which lie in its prefix's range |
| StringHistogram.NotLikePrefixPruningIsSound | src/lib/statistics/chunk_statistics/histograms/abstract_histogram.cpp:445-455 | NOT LIKE with a fixed prefix, when pruned, leaves only occurring strings that match the pattern |
| StringHistogram.NotEqualsPrunesSingleValue | src/lib/statistics/chunk_statistics/histograms/abstract_histogram.cpp:309-310 | NOT EQUALS prunes only a histogram whose min() and max() are both the search value |
| StringHistogram.OnlyValueMatches | src/lib/statistics/chunk_statistics/histograms/abstract_histogram.cpp:423-425 | in a histogram whose one value is a pattern without wildcards, every occurring string matches that pattern |
| StringHistogram.LessThanAgrees | src/lib/statistics/chunk_statistics/histograms/abstract_histogram.cpp:478-516 | for a value within the prefix length the string LessThan estimates (cardinality and distinct count) are the numeric ones on representations |
| StringHistogram.NextValueAgrees | src/lib/statistics/chunk_statistics/histograms/abstract_histogram.cpp:243-245 | get_next_value of a value within the prefix length and not below min() is not pruned by LessThan, and the LessThan estimates at it are the numeric ones at the next representation |
| StringEqualWidthHistogram.ReprsSorted | src/lib/statistics/chunk_statistics/histograms/equal_width_histogram.cpp:112-119 | the representations of strictly ascending value counts within the prefix length ascend strictly, so the integer histogram applies to them |
| StringEqualWidthHistogram.StringTotalIsTotal | src/lib/statistics/chunk_statistics/histograms/equal_width_histogram.cpp:159-161 | the occurrences summed over a run of strings are those of the same run of any pairs with the same counts, such as the representations |
| StringEqualWidthHistogram.AsStringHistogramWellFormed | src/lib/statistics/chunk_statistics/histograms/abstract_histogram.cpp:202-210 | the bins the equal-width string histogram presents form a well-formed string histogram whose min() and max() are the representations of its min and max strings |
| StringEqualWidthHistogram.StringBinWidth | src/lib/statistics/chunk_statistics/histograms/equal_width_histogram.cpp:270-277 | _string_bin_width(i): (repr(max) - repr(min) + 1) / num_bins, plus one for the wider bins, which is the integer bin width of the representations, at least 1 |
| StringEqualWidthHistogram.BinMinAsWritten | src/lib/statistics/chunk_statistics/histograms/equal_width_histogram.cpp:280-286 | as written: the string of num_min + i * _string_bin_width(i) + min(i, num_bins_with_larger_range), failing exactly when that number is past the last string |
| StringEqualWidthHistogram.BinMin | src/lib/statistics/chunk_statistics/histograms/equal_width_histogram.cpp:280-286 | corrected (see Findings): the first string of bin i as _get_bin_stats laid it out, a supported string within the prefix length whose representation is the integer begin of bin i |
| StringEqualWidthHistogram.BinMax | src/lib/statistics/chunk_statistics/histograms/equal_width_histogram.cpp:302-313 | corrected (see Findings): max for the last bin, else the previous value of the next bin's first string; its representation is the integer bin max |
| StringEqualWidthHistogram.BoundsWidthIsStringBinWidth | src/lib/statistics/chunk_statistics/histograms/abstract_histogram.cpp:233-240 | AbstractHistogram's _string_bin_width, repr(_bin_max) - repr(_bin_min) + 1, equals the equal-width _string_bin_width for every bin |
| StringEqualWidthHistogram.BinMinAsWrittenOffset | src/lib/statistics/chunk_statistics/histograms/equal_width_histogram.cpp:280-286 | _bin_min as written is the bin's first string moved up by i representations in a wider bin i > 0, and exactly the bin's first string elsewhere |
| StringEqualWidthHistogram.BinMinAsWrittenExample | src/lib/statistics/chunk_statistics/histograms/equal_width_histogram.cpp:280-286 | characters a..j, prefix length 1, strings a to j in four bins: the bins begin at a, d, g, i, while _bin_min(1) as written is e |
| StringEqualWidthHistogram.BinForValue | src/lib/statistics/chunk_statistics/histograms/equal_width_histogram.cpp:331-348 | INVALID for a value below min or above max as strings; inside, a failure exactly for unsupported characters, and for a supported value the integer _bin_for_value of its representation |
| StringEqualWidthHistogram.InsideWideAgrees | src/lib/statistics/chunk_statistics/histograms/equal_width_histogram.cpp:339-343 | inside the bounds and at or below _bin_max(num_bins_with_larger_range - 1) under string comparison, the offset from repr(min) divided by _string_bin_width(0) is the bin the integer lookup finds for the representation |
| StringEqualWidthHistogram.InsideNarrowAgrees | src/lib/statistics/chunk_statistics/histograms/equal_width_histogram.cpp:339-347 | inside the bounds and above that string, the offset from the first narrower bin's min divided by its width, plus num_bins_with_larger_range, is the bin the integer lookup finds |
| StringEqualWidthHistogram.NextBin | src/lib/statistics/chunk_statistics/histograms/equal_width_histogram.cpp:141-165 | one round of the bin loop fails exactly on the last bin when repr(min) + range is past the last string; otherwise it appends the count and distinct count of bin id and leaves the next bin's first string and scan position at that bin's begin |
| StringEqualWidthHistogram.BinBounds | src/lib/statistics/chunk_statistics/histograms/equal_width_histogram.cpp:141-150 | a bin's last string and the next bin's first from its begin: failure exactly when repr(begin) + bin_width is past the last string; otherwise for a narrower bin the previous value of that string and the string, for a wider one the string and its next value, one representation apart |
| StringEqualWidthHistogram.ScanBin | src/lib/statistics/chunk_statistics/histograms/equal_width_histogram.cpp:153-156 | the scan from the front of value_counts stops at the first string above the bin's last string |
| StringEqualWidthHistogram.ScanStops | src/lib/statistics/chunk_statistics/histograms/equal_width_histogram.cpp:153-158 | that stop is the number of values whose representation lies below the next bin's begin |
| StringEqualWidthHistogram.FillBins | src/lib/statistics/chunk_statistics/histograms/equal_width_histogram.cpp:137-166 | the bin loop fails exactly when the representation one past the bins is past the last string; otherwise bin i holds the summed counts and the count of the strings whose representations lie in its integer range |
| StringEqualWidthHistogram.GetBinStats | src/lib/statistics/chunk_statistics/histograms/equal_width_histogram.cpp:112-169 | as written: num_bins = min(max_num_bins, repr(max) - repr(min) + 1), bin_width and num_bins_with_larger_range from repr(max) - repr(min) + 1; fails exactly when max is the last string of the settings; otherwise min and max are the first and last strings and the bins are the integer bin stats of the representations, well formed |
| StringEqualWidthHistogram.GetBinStatsCorrected | src/lib/statistics/chunk_statistics/histograms/equal_width_histogram.cpp:112-169 | corrected (see Findings): the same bins for every nonempty sorted input, with no failure |
| StringEqualWidthHistogram.BinStatsUnique | src/lib/statistics/chunk_statistics/histograms/equal_width_histogram.cpp:112-169 | the bin stats of given value counts are unique, so the as-written and the corrected builder give the same histogram wherever the first succeeds |
| StringEqualWidthHistogram.GetBinStatsFailsOnLastString | src/lib/statistics/chunk_statistics/histograms/equal_width_histogram.cpp:143-144 | characters a..j, prefix length 1, values a and j: sorted and encodable input whose max j has the largest representation, on which the as-written builder fails |
| ScanBitmask.ShiftAmountInjective | src/lib/operators/table_scan/base_table_scan_impl.hpp:81 | distinct block indices give distinct shifts, so the block's match bits do not collide |
| ScanBitmask.BitOr | src/lib/operators/table_scan/base_table_scan_impl.hpp:81 | matches \|= 1 << i sets bit i of the mask and leaves every other bit as it was |
| ScanBitmask.NoBitOfZero | src/lib/operators/table_scan/base_table_scan_impl.hpp:68 | the mask starts with no bit set |
| TableScan.Select | src/lib/operators/table_scan/base_table_scan_impl.hpp:38-46 | the matches of a chunk are row ids of that chunk, at most one per input element |
| TableScan.Pairs | src/lib/operators/table_scan/base_table_scan_impl.hpp:112-114 | the two iterators walked in lockstep: one pair per left element, NULL when either side is NULL, with the left chunk offset |
| TableScan.SelectAppend | src/lib/operators/table_scan/base_table_scan_impl.hpp:38-46 | scanning a concatenation emits the rows of each part in order |
| TableScan.SelectMembership | src/lib/operators/table_scan/base_table_scan_impl.hpp:38-46 | a row is emitted exactly when some element at its offset is accepted: nothing lost, nothing invented |
| TableScan.SelectKeepsAll | src/lib/operators/table_scan/base_table_scan_impl.hpp:38-46 | when every element is accepted, every offset is emitted, in input order |
| TableScan.UnaryScanSkipsNulls | src/lib/operators/table_scan/base_table_scan_impl.hpp:41 | _unary_scan never emits a NULL element, whatever func says about its value |
| TableScan.NonNullableScanKeepsNullFlaggedRows | src/lib/operators/table_scan/base_table_scan_impl.hpp:79 | without LeftIsNullable the NULL flag is not consulted (a NULL element whose value matches is emitted); with it, such an element is not emitted through its own position |
| TableScan.BlockedLength | src/lib/operators/table_scan/base_table_scan_impl.hpp:66 | the blocked path consumes whole blocks while strictly more than BUFFER_SIZE elements remain, so a nonempty input leaves 1 to BUFFER_SIZE elements for the remainder loop |
| TableScan.UnaryScan | src/lib/operators/table_scan/base_table_scan_impl.hpp:34-47 | _unary_scan appends to matches_out exactly the non-NULL elements func accepts, in input order |
| TableScan.FillBlock | src/lib/operators/table_scan/base_table_scan_impl.hpp:76-85 | after one block, bit k of matches is set exactly for the accepted elements and buffer[k] holds their chunk offsets |
| TableScan.CopyBlock | src/lib/operators/table_scan/base_table_scan_impl.hpp:89-95 | copying out the set bits appends the accepted elements of the block in index order |
| TableScan.ScanBlocks | src/lib/operators/table_scan/base_table_scan_impl.hpp:66-96 | the blocked loop consumes BlockedLength elements and appends exactly the accepted ones among them, in order |
| TableScan.UnaryScanWithValue | src/lib/operators/table_scan/base_table_scan_impl.hpp:51-107 | whether the blocked path runs or not, _unary_scan_with_value appends exactly the rows of the plain loop over the whole input, in order |
| TableScan.BinaryScan | src/lib/operators/table_scan/base_table_scan_impl.hpp:109-122 | _binary_scan appends the left offsets of the pairs where neither side is NULL and func holds, in order |
| PosLists.PosList.Append | src/lib/operators/table_scan/base_table_scan_impl.hpp:44 | push_back / emplace_back appends one row id and keeps the others |
| Product.GridIndex | src/lib/operators/product.cpp:89-91 | output row i of a chunk pair has left offset i / right_size below left_size and right offset i % right_size below right_size |
| Product.SidePositions | src/lib/operators/product.cpp:87-97 | each side's position list has left_size * right_size entries |
| Product.PairIndex | src/lib/operators/product.cpp:89-91 | pair (l, r) is row l * right_size + r, which divides back into l and r |
| Product.ProductHoldsPair | src/lib/operators/product.cpp:46-55 | every pair of a left and a right row appears: row l * right_size + r holds left entry l and right entry r |
| Product.PairsAppearOnce | src/lib/operators/product.cpp:46-55 | distinct pairs are distinct output rows |
| Product.LeftMajorOrder | src/lib/operators/product.cpp:46-55 | output rows are left-major: each left row repeated right_size times, the right rows in ascending order within |
| Product.BuildPosList | src/lib/operators/product.cpp:85-98 | the loop fills a fresh pos list with exactly the side's positions: the referenced row of the input pos list, or a row id of the input chunk |
| Product.SideSegments | src/lib/operators/product.cpp:63-103 | one output segment per input segment, referencing what its input references; segments with the same input pos list (or none) share one fresh output list |
| Product.ProductSegments | src/lib/operators/product.cpp:60-103 | the segments built for a chunk pair, left side then right side, form the product of the two chunks, over pos lists not shared with any earlier chunk |
| Product.AddProductOfTwoChunks | src/lib/operators/product.cpp:42-106 | add_product_of_two_chunks appends one chunk that is the product of the two chunks and leaves the earlier chunks unchanged |
| Product.AddProductsOfLeftChunk | src/lib/operators/product.cpp:34-36 | the inner loop appends the products of left chunk l with every right chunk, in right-chunk order |
| Product.AddProductRow | src/lib/operators/product.cpp:32-36 | one round of the outer loop extends the output to (l + 1) * right_chunk_count chunks, each being the product of its chunk pair |
| Product.OutputDefinitions | src/lib/operators/product.cpp:21-29 | the output columns are the left column definitions followed by the right ones |
| Product.Execute | src/lib/operators/product.cpp:18-40 | the output has the left columns then the right ones and one chunk per pair of chunks, left-major: chunk k is the product of left chunk k / right_chunk_count and right chunk k % right_chunk_count |
| JitTypes.TypeOf | src/lib/operators/jit_operator/jit_utils.cpp:30 | data_type_from_all_type_variant: the type is Null exactly for the NULL variant |
| JitUtils.SwapExpressionType | src/lib/operators/jit_operator/jit_utils.cpp:52-65 | swap_expression_type maps comparisons to comparisons and leaves every non-ordering type unchanged |
| JitUtils.SwapIsInvolution | src/lib/operators/jit_operator/jit_utils.cpp:52-65 | swapping twice gives the original expression type back |
| JitUtils.SwapNegatesOrderings | src/lib/operators/jit_operator/jit_utils.cpp:53-61 | on the four ordering comparisons the swapped type is the negation, for every pair of operands |
| JitUtils.CastAllTypeVariantToType | src/lib/operators/jit_operator/jit_utils.cpp:27-50 | a Null target gives NULL; a value already of the target type is returned as is; NULL and strings cannot be converted (Fail); otherwise the result is the scalar conversion |
| JitExpressions.ResultType | src/lib/operators/jit_operator/operators/jit_expression.cpp:171-231 | _compute_result_type: a one-child node succeeds exactly for Not, IsNull and IsNotNull; every non-arithmetic result is Bool; a two-child result is nullable exactly when either child is nullable or of type Null |
| JitExpressions.BinaryTypesAccepted | src/lib/operators/jit_operator/operators/jit_expression.cpp:185-224 | every two-child expression type has a result type (arithmetic, comparisons, LIKE, NOT LIKE, AND, OR) |
| JitExpressions.MakeColumn | src/lib/operators/jit_operator/operators/jit_expression.cpp:11-12 | the leaf constructor makes a Column expression over the tuple value, not loading lazily |
| JitExpressions.MakeUnary | src/lib/operators/jit_operator/operators/jit_expression.cpp:14-18 | the one-child constructor fails for types other than Not, IsNull and IsNotNull, keeps well-typedness and gets the requested result slot |
| JitExpressions.MakeBinary | src/lib/operators/jit_operator/operators/jit_expression.cpp:20-26 | the two-child constructor fails exactly for types without a result type, keeps well-typedness and gets the requested result slot |
| JitExpressions.ToStringShape | src/lib/operators/jit_operator/operators/jit_expression.cpp:28-40 | to_string prints a leaf as "x" and its index, an inner node in parentheses |
| JitExpressions.ToStringBalanced | src/lib/operators/jit_operator/operators/jit_expression.cpp:28-40 | the printed expression, lazy-load notes included, has as many opening as closing parentheses |
| JitExpressions.InBounds | src/lib/operators/jit_operator/operators/jit_expression.cpp:42-169 | an expression in bounds of an n-slot tuple has its result slot inside the tuple |
| JitExpressions.Read | src/lib/operators/jit_operator/operators/jit_expression.cpp:239-244 | a tuple value read as an operation sees it: NULL only when its type is nullable |
| JitExpressions.ComputeTuple | src/lib/operators/jit_operator/operators/jit_expression.cpp:42-169 | compute leaves the runtime tuple at its length |
| JitExpressions.ComputeSwitch | src/lib/operators/jit_operator/operators/jit_expression.cpp:85-166 | compute supports exactly the arithmetic, comparison and connective types; anything else is "Expression type is not supported." |
| JitExpressions.Compute | src/lib/operators/jit_operator/operators/jit_expression.cpp:42-169 | compute on a context fails exactly when the specification does and otherwise leaves the tuple the bottom-up evaluation gives |
| JitExpressions.ComputeWritesOnlyResults | src/lib/operators/jit_operator/operators/jit_expression.cpp:42-169 | compute changes no slot except the result slots of the inner nodes |
| JitExpressions.TwoChildUnaryIsUnary | src/lib/operators/jit_operator/operators/jit_expression.cpp:51-67 | a two-child node of type Not, IsNull or IsNotNull computes and gets exactly as the one-child node over its left child; the right child is never computed (lines 51-67 and 247-258) |
| JitExpressions.PrunedRightIsNotComputed | src/lib/operators/jit_operator/operators/jit_expression.cpp:70-81 | with logical pruning, an AND whose left side is FALSE (an OR whose left is TRUE) does not compute its right operand |
| JitExpressions.ComputeAndGet | src/lib/operators/jit_operator/operators/jit_expression.cpp:233-316 | compute_and_get of a leaf always succeeds, a leaf of type Null is NULL, and a two-child node of a two-operand type succeeds only for a type its switch supports |
| JitExpressions.SwitchesAgree | src/lib/operators/jit_operator/operators/jit_expression.cpp:85-166 | compute and compute_and_get select the same operation wherever both support the type; only compute_and_get supports LIKE and NOT LIKE |
| JitExpressions.WellTypedNullabilityFlows | src/lib/operators/jit_operator/operators/jit_expression.cpp:226-230 | expressions built by the constructors let nullability flow from the children to the node |
| JitExpressions.NonNullableNeverNull | src/lib/operators/jit_operator/operators/jit_expression.cpp:233-316 | with strict operations, an expression whose result is not nullable never yields NULL from compute_and_get |
| JitExpressions.Preorder | src/lib/operators/jit_operator/operators/jit_compute.cpp:37-48 | the stack walk reaches every leaf, and only leaves |
| JitExpressions.CountsOnceOfLeaves | src/lib/operators/jit_operator/operators/jit_compute.cpp:44-47 | the map built by column_ids[i] = !column_ids.count(i) has the leaves' tuple indices as keys, true exactly for an index read by a single leaf |
| JitExpressions.AccessedColumnIds | src/lib/operators/jit_operator/operators/jit_compute.cpp:35-50 | accessed_column_ids walks the expression on a stack and returns the exactly-once map of the leaves in preorder |
| JitExpressions.MarkLeafAtKeepsTree | src/lib/operators/jit_operator/operators/jit_compute.cpp:60-65 | marking a leaf for loading leaves the tree, its result slots, types and other leaves unchanged |
| JitExpressions.MarkLeafAtSetsThatFlag | src/lib/operators/jit_operator/operators/jit_compute.cpp:60-65 | marking leaf p sets exactly that leaf's load flag and input reader |
| JitExpressions.SetLoadColumn | src/lib/operators/jit_operator/operators/jit_compute.cpp:52-68 | set_load_column marks the first leaf in preorder reading the tuple index and returns; without one the expression is unchanged |
| JitExpressions.ComputeAndGetReadsLeaves | src/lib/operators/jit_operator/operators/jit_expression.cpp:234-245 | compute_and_get reads nothing but the leaves' slots |
| JitExpressions.ComputeAndGetAgreesWithCompute | src/lib/operators/jit_operator/operators/jit_expression.cpp:42-316 | without pruning, compute_and_get yields exactly what compute leaves in the result slot, for well-typed expressions with separate result slots and strict operations |
| JitComputeOperator.StoreResult | src/lib/operators/jit_operator/operators/jit_compute.cpp:16-24 | _consume stores the computed value in the result slot, the NULL flag only for a nullable result, leaves a Null-typed result untouched, and changes no other slot |
| JitComputeOperator.StoredResultAsComputed | src/lib/operators/jit_operator/operators/jit_compute.cpp:70-78 | what the next operator reads from the result slot is what compute_and_get yielded and, without pruning, what compute would have stored |
| JitComputeOperator.JitCompute.Description | src/lib/operators/jit_operator/operators/jit_compute.cpp:29-31 | description starts with "[Compute] x" |
| JitComputeOperator.JitCompute.DescriptionBalanced | src/lib/operators/jit_operator/operators/jit_compute.cpp:29-31 | the description balances its parentheses |
| JitComputeOperator.JitCompute.Consume | src/lib/operators/jit_operator/operators/jit_compute.cpp:70-78 | _consume stores the expression's value as StoreResult says and emits the tuple |
| JitComputeOperator.JitCompute.AccessedColumnIds | src/lib/operators/jit_operator/operators/jit_compute.cpp:35-50 | the keys are the leaves' tuple indices, true exactly for an index occurring once |
| JitComputeOperator.JitCompute.SetLoadColumn | src/lib/operators/jit_operator/operators/jit_compute.cpp:52-68 | only the first leaf reading the tuple index loads through the given reader; otherwise the expression is unchanged |
| JitFilterOperator.ConditionPasses | src/lib/operators/jit_operator/operators/jit_filter.cpp:32 | a condition read from the tuple passes exactly when it is non-NULL and TRUE |
| JitFilterOperator.ExpressionPasses | src/lib/operators/jit_operator/operators/jit_filter.cpp:26-31 | with NULL handling corrected, an expression passes exactly when compute_and_get yields a non-NULL TRUE, and fails exactly when compute_and_get fails |
| JitFilterOperator.ExpressionPassesAsWritten | src/lib/operators/jit_operator/operators/jit_filter.cpp:27 | as written, only the value of compute_and_get is consulted, never its NULL flag |
| JitFilterOperator.AsWrittenPassesNull | src/lib/operators/jit_operator/operators/jit_filter.cpp:27 | a NULL row of a nullable Bool column still holding TRUE passes the filter on an expression as written, but neither the corrected filter nor the filter on the condition |
| JitFilterOperator.FilterModesAgree | src/lib/operators/jit_operator/operators/jit_filter.cpp:25-39 | filtering on an expression decides as filtering on its condition after compute stored the expression's value, in both directions |
| JitFilterOperator.JitFilter.Description | src/lib/operators/jit_operator/operators/jit_filter.cpp:21 | the description is "[Filter] on x" followed by the digits of the condition's tuple index, which read back as that index |
| JitFilterOperator.JitFilter.Consume | src/lib/operators/jit_operator/operators/jit_filter.cpp:25-39 | _consume passes the tuple on as the condition says without an expression, and as the (corrected) expression says with one |
| JitFilterOperator.JitFilter.AccessedColumnIds | src/lib/operators/jit_operator/operators/jit_filter.cpp:41-61 | without an expression only the condition is accessed, marked not-only-once; with one, every leaf's tuple index, true exactly when it occurs once |
| JitFilterOperator.JitFilter.SetLoadColumn | src/lib/operators/jit_operator/operators/jit_filter.cpp:63-79 | only the first leaf in preorder reading the tuple index loads through the given input column; otherwise the expression is unchanged |
| JitLimitOperator.Outcomes | src/lib/operators/jit_operator/operators/jit_limit.cpp:9-19 | one pass-or-stop decision per tuple reaching the limit operator |
| JitLimitOperator.FirstStopAfterN | src/lib/operators/jit_operator/operators/jit_limit.cpp:10 | from a limit of n the first n tuples are passed on and the next one is not |
| JitLimitOperator.PassedBeforeStop | src/lib/operators/jit_operator/operators/jit_limit.cpp:9-19 | the number of tuples passed before the first stop: all before it passed, the one at it did not |
| JitLimitOperator.ExactlyNPassed | src/lib/operators/jit_operator/operators/jit_limit.cpp:9-19 | exactly min(n, calls) tuples are passed on before the first stop |
| JitLimitOperator.PassesAgainAfterStop | src/lib/operators/jit_operator/operators/jit_limit.cpp:10-14 | after the first stop the counted-down limit passes every later tuple, so the stop itself rests on the chunk offset move and jit_end_operator_limit() |
| JitLimitOperator.JitLimit.Consume | src/lib/operators/jit_operator/operators/jit_limit.cpp:9-19 | a tuple is emitted exactly when the remaining limit is non-zero; the limit is counted down in both cases and on a stop the chunk offset moves to one below its maximum |
| JitFilterOperator.JitFilter.FromCondition | src/lib/operators/jit_operator/operators/jit_filter.cpp:9-13 | a filter on a boolean tuple value keeps that condition and has no expression; a non-boolean condition is refused |
| JitFilterOperator.JitFilter.FromExpression | src/lib/operators/jit_operator/operators/jit_filter.cpp:15-19 | a filter on a boolean expression takes the expression's result as its condition |
| JitValueIds.FirstNotBelowSplits | src/lib/operators/jit_operator/operators/jit_read_tuples.cpp:188 | in a sorted dictionary the lower-bound position splits it: exactly the values before it are below the search value |
| JitValueIds.FirstAboveSplits | src/lib/operators/jit_operator/operators/jit_read_tuples.cpp:192 | in a sorted dictionary the upper-bound position splits it: exactly the values before it are at most the search value |
| JitValueIds.LowerBound | src/lib/operators/jit_operator/operators/jit_read_tuples.cpp:182 | the dictionary's lower_bound is a position of the dictionary or INVALID_VALUE_ID |
| JitValueIds.UpperBound | src/lib/operators/jit_operator/operators/jit_read_tuples.cpp:182 | the dictionary's upper_bound is a position of the dictionary or INVALID_VALUE_ID |
| JitValueIds.BoundsMeetIffAbsent | src/lib/operators/jit_operator/operators/jit_read_tuples.cpp:182 | lower_bound and upper_bound agree exactly when the search value is not in the dictionary |
| JitValueIds.ValueIdFor | src/lib/operators/jit_operator/operators/jit_read_tuples.cpp:177-201 | the stored id: unsupported types fail; < and >= get the lower bound, <= and > the upper bound, with INVALID_VALUE_ID stored as the largest JIT value id; ids too high fail |
| JitValueIds.EqualityIdFindsValue | src/lib/operators/jit_operator/operators/jit_read_tuples.cpp:179-185 | for = and != the stored id is the value's position when present and an id no row has when absent |
| JitValueIds.ConverseExpressionType | src/lib/operators/jit_operator/operators/jit_read_tuples.cpp:295-303 | the operand-swapped comparison: a op b holds exactly when b op' a does |
| JitValueIds.RewrittenType | src/lib/operators/jit_operator/operators/jit_read_tuples.cpp:306-311 | the adjusted expression type stays a comparison |
| JitValueIds.ValueIdPredicateSound | src/lib/operators/jit_operator/operators/jit_read_tuples.cpp:294-313 | corrected: for every comparison, both operand orders, every sorted dictionary, search value and row, comparing value ids gives the answer comparing the values gives |
| JitValueIds.AsWrittenAgreesUnswapped | src/lib/operators/jit_operator/operators/jit_read_tuples.cpp:303-311 | with the column on the left the code as written and the corrected version store and rewrite the same types |
| JitValueIds.AsWrittenSwappedComparisonWrong | src/lib/operators/jit_operator/operators/jit_read_tuples.cpp:303-311 | as written, 2 > column over the dictionary [1, 3] lets the row holding 3 through |
| JitReadTuplesOperator.FindFirst | src/lib/operators/jit_operator/operators/jit_read_tuples.cpp:237-240 | std::find_if: the first position satisfying the predicate, none when no position does |
| JitReadTuplesOperator.FindLast | src/lib/operators/jit_operator/operators/jit_read_tuples.cpp:283-293 | the backwards find of add_value_id_predicate: the last position satisfying the predicate, none when no position does |
| JitReadTuplesOperator.AsWrittenValueIdLiteralLost | src/lib/operators/jit_operator/operators/jit_read_tuples.cpp:249-263 | as written, a value-id request for a literal already registered by value gets the plain slot, and no value-id literal exists for it |
| JitReadTuplesOperator.AsWrittenValueIdParameterLost | src/lib/operators/jit_operator/operators/jit_read_tuples.cpp:265-278 | as written, a value-id request for a parameter already registered by value gets the plain slot, and no value-id parameter exists for it |
| JitReadTuplesOperator.FreshSlotKeepsDistinct | src/lib/operators/jit_operator/operators/jit_read_tuples.cpp:232-278 | handing out the next slot number keeps every registered slot distinct and below the slot count |
| JitReadTuplesOperator.Resize | src/lib/operators/jit_operator/operators/jit_read_tuples.cpp:50 | std::vector::resize keeps the prefix and value-initialises new slots |
| JitReadTuplesOperator.SetValueFromInput | src/lib/operators/jit_operator/operators/jit_read_tuples.cpp:62-78 | set_value_from_input does nothing for a Null slot, fails when the value is not of the slot's type, and otherwise makes the slot read back as the value, not NULL, changing no other slot |
| JitReadTuplesOperator.FillKeepsOtherSlots | src/lib/operators/jit_operator/operators/jit_read_tuples.cpp:80-88 | copying the inputs changes only slots of inputs copied by value |
| JitReadTuplesOperator.FillWritesEveryInput | src/lib/operators/jit_operator/operators/jit_read_tuples.cpp:80-88 | with distinct slots, every input copied by value reads back as its value |
| JitReadTuplesOperator.LiteralsAlwaysCopy | src/lib/operators/jit_operator/operators/jit_read_tuples.cpp:80-83 | literals always copy, each holding a value of its own slot's type |
| JitReadTuplesOperator.FillFailurePersists | src/lib/operators/jit_operator/operators/jit_read_tuples.cpp:80-88 | a failure copying an earlier input is the result of copying them all |
| JitReadTuplesOperator.JitReadTuples.FindInputColumn | src/lib/operators/jit_operator/operators/jit_read_tuples.cpp:337-347 | find_input_column gives the column of the first entry with that tuple value, none exactly when no entry has it |
| JitReadTuplesOperator.JitReadTuples.FindLiteralValue | src/lib/operators/jit_operator/operators/jit_read_tuples.cpp:349-359 | find_literal_value gives the value of the first literal in the same slot (only the index compared), none exactly when no literal has the slot |
| JitReadTuplesOperator.JitReadTuples.ColumnSlotsUnique | src/lib/operators/jit_operator/operators/jit_read_tuples.cpp:232-247 | two column entries in the same slot are the same entry |
| JitReadTuplesOperator.JitReadTuples.LiteralSlotsUnique | src/lib/operators/jit_operator/operators/jit_read_tuples.cpp:249-263 | two literal entries in the same slot are the same entry |
| JitReadTuplesOperator.JitReadTuples.AddInputColumn | src/lib/operators/jit_operator/operators/jit_read_tuples.cpp:232-247 | a column already read the same way returns its tuple value and changes nothing; otherwise the next slot is taken (typed as value id when requested) and registered; find_input_column then finds the column |
| JitReadTuplesOperator.JitReadTuples.AddLiteralValue | src/lib/operators/jit_operator/operators/jit_read_tuples.cpp:249-263 | corrected reuse: only plain requests share a plain literal's slot; otherwise the next slot, not nullable, typed by the value or as value id; a value-id request always leaves a value-id entry, and find_literal_value finds the value |
| JitReadTuplesOperator.JitReadTuples.AddParameterValue | src/lib/operators/jit_operator/operators/jit_read_tuples.cpp:265-278 | corrected reuse as for literals: a value-id request always leaves a value-id parameter entry in a fresh slot |
| JitReadTuplesOperator.JitReadTuples.AddTemporaryValue | src/lib/operators/jit_operator/operators/jit_read_tuples.cpp:323-327 | add_temporary_value takes the next slot, which no input owns |
| JitReadTuplesOperator.JitReadTuples.SetParameters | src/lib/operators/jit_operator/operators/jit_read_tuples.cpp:316-321 | each parameter whose id is in the map takes its value; every other parameter stays as it was |
| JitReadTuplesOperator.JitReadTuples.PredicateFor | src/lib/operators/jit_operator/operators/jit_read_tuples.cpp:280-314 | corrected (see Findings): the recorded predicate refers to the last value-id column in the column operand's slot and the last value-id literal (else parameter) of the other operand, with the comparison read column-first through the converse where the source applies swap_expression_type; none exactly when those are missing |
| JitReadTuplesOperator.JitReadTuples.AddValueIdPredicate | src/lib/operators/jit_operator/operators/jit_read_tuples.cpp:280-314 | corrected (see Findings): the predicate is appended and the expression's comparison is adjusted from the corrected stored type, its operands staying where they are |
| JitReadTuplesOperator.JitReadTuples.InputsFitAndAreDistinct | src/lib/operators/jit_operator/operators/jit_read_tuples.cpp:80-88 | the literals and parameters copied by before_query fit the tuple and own distinct slots |
| JitReadTuplesOperator.JitReadTuples.QueryTupleHoldsInputs | src/lib/operators/jit_operator/operators/jit_read_tuples.cpp:48-90 | after before_query every literal and parameter copied by value reads back as its value |
| JitReadTuplesOperator.JitReadTuples.QueryTupleKeepsOtherSlots | src/lib/operators/jit_operator/operators/jit_read_tuples.cpp:48-90 | every other slot keeps its content, or is value-initialised when the tuple grew |
| JitReadTuplesOperator.JitReadTuples.BeforeQuery | src/lib/operators/jit_operator/operators/jit_read_tuples.cpp:48-90 | before_query takes the limit from the row-count expression when there is one and leaves the tuple QueryTuple gives, failing exactly when it does |
| JitReadTuplesOperator.JitReadTuples.CopyInputs | src/lib/operators/jit_operator/operators/jit_read_tuples.cpp:80-88 | the copy loops leave exactly the tuple FillInputs gives, failing exactly when it does |
| JitReadTuplesOperator.JitReadTuples.ValueIdStep | src/lib/operators/jit_operator/operators/jit_read_tuples.cpp:158-203 | one value-id step casts the operand, looks it up and writes the id into the operand's slot only; it fails exactly when the cast or the lookup does |
| JitReadTuplesOperator.JitReadTuples.ChunkTupleKeepsOtherSlots | src/lib/operators/jit_operator/operators/jit_read_tuples.cpp:158-203 | the value-id loop changes only operand slots of value-id predicates |
| JitReadTuplesOperator.JitReadTuples.BeforeChunk | src/lib/operators/jit_operator/operators/jit_read_tuples.cpp:92-204 | before_chunk resets the chunk position to chunk_id with its size and leaves the tuple ChunkTuple gives, failing exactly when it does |
| JitReadTuplesOperator.JitReadTuples.ChunkFailurePersists | src/lib/operators/jit_operator/operators/jit_read_tuples.cpp:158-203 | a failing earlier value-id step fails before_chunk |
| JitReadTuplesOperator.JitReadTuples.constructor | src/lib/operators/jit_operator/operators/jit_read_tuples.cpp:17-20 | a new reader keeps the validate flag and row-count expression and has no slots, inputs or value-id predicates |
| JitReadTuplesOperator.JitReadTuples.QueryTuple | src/lib/operators/jit_operator/operators/jit_read_tuples.cpp:48-90 | the tuple before_query builds has exactly one slot per registered tuple value |
| JitReadTuplesOperator.JitReadTuples.ChunkTuple | src/lib/operators/jit_operator/operators/jit_read_tuples.cpp:177-201 | processing the value-id predicates keeps the tuple's length |
| JitWriteOffsetOperator.FilterPosList | src/lib/operators/jit_operator/operators/jit_write_offset.cpp:61-69 | the filtered list is fresh and holds, for each match in order, the input pos list's row at the match's chunk offset |
| JitWriteOffsetOperator.JitWriteOffset.AddOutputColumn | src/lib/operators/jit_operator/operators/jit_write_offset.cpp:89-91 | add_output_column appends the column and keeps the others |
| JitWriteOffsetOperator.JitWriteOffset.CreateOutputTable | src/lib/operators/jit_operator/operators/jit_write_offset.cpp:20-32 | create_output_table makes a fresh, empty References table with one definition (name, type, nullability) per output column, in order; Bool columns are refused |
| JitWriteOffsetOperator.JitWriteOffset.Consume | src/lib/operators/jit_operator/operators/jit_write_offset.cpp:95-97 | _consume appends the current chunk id and chunk offset to the output pos list |
| JitWriteOffsetOperator.JitWriteOffset.CreateOutputChunk | src/lib/operators/jit_operator/operators/jit_write_offset.cpp:99-102 | _create_output_chunk installs a fresh, empty output pos list |
| JitWriteOffsetOperator.JitWriteOffset.BeforeQuery | src/lib/operators/jit_operator/operators/jit_write_offset.cpp:34-36 | before_query installs the first, empty output pos list |
| JitWriteOffsetOperator.JitWriteOffset.FilteredSegments | src/lib/operators/jit_operator/operators/jit_write_offset.cpp:43-73 | for a reference input, one segment per output column referencing the input segment's table and column through the filtered positions; columns over the same input pos list share one fresh filtered list |
| JitWriteOffsetOperator.JitWriteOffset.AfterChunk | src/lib/operators/jit_operator/operators/jit_write_offset.cpp:38-87 | nothing happens for a chunk without matches; otherwise one chunk is appended (data input: every column references the input table through the output pos list itself; reference input: through filtered lists) and a fresh list is installed unless the chunk was the last |
| LogicalExpressionReducer.Collect | src/lib/optimizer/strategy/logical_expression_reducer_rule.cpp:176-196 | _collect_chained_logical_expressions: a nonempty set of elements, none a link of the chain; an expression that is not a link is its own single element |
| LogicalExpressionReducer.ConjunctionOfCollected | src/lib/optimizer/strategy/logical_expression_reducer_rule.cpp:176-196 | an AND chain holds exactly when all its collected elements hold |
| LogicalExpressionReducer.DisjunctionOfCollected | src/lib/optimizer/strategy/logical_expression_reducer_rule.cpp:176-196 | an OR chain holds exactly when one of its collected elements holds |
| LogicalExpressionReducer.Remove | src/lib/optimizer/strategy/logical_expression_reducer_rule.cpp:199-232 | _remove_expressions_from_chain keeps only elements of the chain and drops exactly the ones to remove (when those are not links); a non-chain is untouched |
| LogicalExpressionReducer.RemovePreservesConjunction | src/lib/optimizer/strategy/logical_expression_reducer_rule.cpp:199-232 | removing conjuncts the chain has loses nothing once they are AND-ed back in |
| LogicalExpressionReducer.CommonIsInEveryBranch | src/lib/optimizer/strategy/logical_expression_reducer_rule.cpp:104-125 | a common conjunct is an AND element of every OR branch, and every such element is common |
| LogicalExpressionReducer.IntersectConjuncts | src/lib/optimizer/strategy/logical_expression_reducer_rule.cpp:104-125 | Step 2 computes exactly the AND elements common to all branches |
| LogicalExpressionReducer.ReducedBranchesHold | src/lib/optimizer/strategy/logical_expression_reducer_rule.cpp:143-151 | with the common conjuncts holding, the branches hold exactly when their reduced forms do |
| LogicalExpressionReducer.RewrittenPreservesTruth | src/lib/optimizer/strategy/logical_expression_reducer_rule.cpp:140-156 | the rewritten chain has the truth value of the OR chain under every assignment, whatever order the sets are iterated in |
| LogicalExpressionReducer.RebuildChain | src/lib/optimizer/strategy/logical_expression_reducer_rule.cpp:143-156 | Steps 4.1 and 4.2 build the chain: reduced first branch, OR-ed with every reduced branch from the first on, then each common conjunct AND-ed in front |
| LogicalExpressionReducer.FactorIsConjunction | src/lib/optimizer/strategy/logical_expression_reducer_rule.cpp:93-163 | a factored OR chain becomes an AND chain |
| LogicalExpressionReducer.FactorIffSharedConjunct | src/lib/optimizer/strategy/logical_expression_reducer_rule.cpp:132-138 | an OR chain is rewritten exactly when some conjunct occurs in all of its branches |
| LogicalExpressionReducer.FactorPreservesTruth | src/lib/optimizer/strategy/logical_expression_reducer_rule.cpp:93-163 | the factored expression has the truth value of the original under every assignment |
| LogicalExpressionReducer.ReducePreservesTruth | src/lib/optimizer/strategy/logical_expression_reducer_rule.cpp:77-170 | the reduced expression has the truth value of the original under every assignment |
| LogicalExpressionReducer.ReduceChangesIffReducible | src/lib/optimizer/strategy/logical_expression_reducer_rule.cpp:77-170 | the reduction leaves an expression as it is exactly when nothing in it is factored |
| LogicalExpressionReducer.VisitExpression | src/lib/optimizer/strategy/logical_expression_reducer_rule.cpp:79-169 | the visitor reuses memoised results (Step 0), visits the arguments of non-logical expressions, rewrites and memoises OR chains with common conjuncts; its result is the reduction, the memo stays sound and only grows, and a change means something was reducible |
| LogicalExpressionReducer.FactorChain | src/lib/optimizer/strategy/logical_expression_reducer_rule.cpp:93-163 | an OR chain without common conjuncts is left and not memoised; otherwise it is replaced by its factored form, memoised, and changed is set |
| LogicalExpressionReducer.ApplyToExpressions | src/lib/optimizer/strategy/logical_expression_reducer_rule.cpp:73-173 | every expression is replaced by its reduction with one memo passed along; changed implies something was reducible |
| LogicalExpressionReducer.ReduceAllChangesIffReducible | src/lib/optimizer/strategy/logical_expression_reducer_rule.cpp:73-173 | the expressions are all left as they are exactly when none of them is reducible |
| LogicalExpressionReducer.ApplyToNode | src/lib/optimizer/strategy/logical_expression_reducer_rule.cpp:28-71 | the expressions of predicate and projection nodes, then the left and right inputs, are reduced with one memo |
| LogicalExpressionReducer.ReducePlanChangesIffReducible | src/lib/optimizer/strategy/logical_expression_reducer_rule.cpp:28-71 | the plan is left as it is exactly when nothing in it is factored |
| LogicalExpressionReducer.ApplyTo | src/lib/optimizer/strategy/logical_expression_reducer_rule.cpp:18-26 | apply_to returns the reduced plan and reports a change exactly when some OR chain was factored, which is exactly when the plan differs |
| LogicalExpressionReducer.ReducePlanPreservesTruth | src/lib/optimizer/strategy/logical_expression_reducer_rule.cpp:18-71 | every predicate and projection expression of the plan keeps its truth value |
| CardinalityEstimation.GetCountsOneRequest | src/lib/statistics/cardinality_estimation_cache.cpp:21-48 | get counts one request of the key and exactly one hit (cardinality stored) or miss (none), and changes no other entry and no cardinality |
| CardinalityEstimation.AccessGrowsSize | src/lib/statistics/cardinality_estimation_cache.cpp:221-224 | get, get_timeout and set_timeout insert an entry for an unseen key, so size grows by one exactly then |
| CardinalityEstimation.PutThenGet | src/lib/statistics/cardinality_estimation_cache.cpp:50-60 | after put(k, c) the entry of k holds c; put changes no counter, no request count and no other entry |
| CardinalityEstimation.SetTimeoutThenGetTimeout | src/lib/statistics/cardinality_estimation_cache.cpp:62-68 | a timeout set is read back by get_timeout; the cardinality and other entries stay |
| CardinalityEstimation.DistinctCountsBounded | src/lib/statistics/cardinality_estimation_cache.cpp:82-92 | distinct hits and distinct misses are disjoint, together are the requested keys, and number at most distinct_request_count |
| CardinalityEstimation.GetIsCountedDistinct | src/lib/statistics/cardinality_estimation_cache.cpp:21-48 | a key get asked for is afterwards a distinct hit or a distinct miss, as the lookup went |
| CardinalityEstimation.ResetForgetsRequests | src/lib/statistics/cardinality_estimation_cache.cpp:94-96 | reset_distinct_hit_miss_counts zeroes the request counts only, so nothing is a distinct hit or miss afterwards while keys, cardinalities and timeouts stay |
| CardinalityEstimation.Cache.GetEntry | src/lib/statistics/cardinality_estimation_cache.cpp:221-224 | get_entry returns the entry of the key, inserting an empty one for a new key |
| CardinalityEstimation.Cache.Get | src/lib/statistics/cardinality_estimation_cache.cpp:21-48 | get returns the stored cardinality (none on a miss) and updates the state as AfterGet |
| CardinalityEstimation.Cache.Put | src/lib/statistics/cardinality_estimation_cache.cpp:50-60 | put stores the cardinality as AfterPut |
| CardinalityEstimation.Cache.GetTimeout | src/lib/statistics/cardinality_estimation_cache.cpp:62-64 | get_timeout returns the entry's timeout, inserting the entry when new |
| CardinalityEstimation.Cache.SetTimeout | src/lib/statistics/cardinality_estimation_cache.cpp:66-68 | set_timeout stores the timeout as AfterSetTimeout |
| CardinalityEstimation.Cache.Size | src/lib/statistics/cardinality_estimation_cache.cpp:78-84 | size and distinct_request_count are the number of entries |
| CardinalityEstimation.Cache.DistinctHitCount | src/lib/statistics/cardinality_estimation_cache.cpp:86-88 | distinct_hit_count counts entries with a cardinality and a positive request count |
| CardinalityEstimation.Cache.DistinctMissCount | src/lib/statistics/cardinality_estimation_cache.cpp:90-92 | distinct_miss_count counts entries without a cardinality but with a positive request count |
| CardinalityEstimation.Cache.ResetDistinctHitMissCounts | src/lib/statistics/cardinality_estimation_cache.cpp:94-96 | every request count is set to zero; counters and log unchanged |
| CardinalityEstimation.Cache.Clear | src/lib/statistics/cardinality_estimation_cache.cpp:98-103 | clear leaves no entries, both counters zero and the log detached |
| CardinalityEstimation.Cache.SetLog | src/lib/statistics/cardinality_estimation_cache.cpp:105-107 | set_log attaches or detaches the log and changes nothing else |
| DpSubplanCache.AsWrittenKeepsCostlierPlan | src/lib/optimizer/join_ordering/dp_subplan_cache_best.cpp:19-21 | as written, a stored plan of cost 1 is overwritten by a plan of cost 2 for the same vertex set |
| DpSubplanCache.AsWrittenKeepsZeroCostPlan | src/lib/optimizer/join_ordering/dp_subplan_cache_best.cpp:19-21 | as written, a stored plan of cost zero is never replaced |
| DpSubplanCache.CachedPlanIsCheapest | src/lib/optimizer/join_ordering/dp_subplan_cache_best.cpp:16-23 | corrected: the cached plan of a set is one of the plans offered for it (or stored before), present exactly when one was, and costs no more than any of them |
| DpSubplanCache.DpSubplanCacheBest.Clear | src/lib/optimizer/join_ordering/dp_subplan_cache_best.cpp:7 | clear forgets every plan |
| DpSubplanCache.DpSubplanCacheBest.GetBestPlan | src/lib/optimizer/join_ordering/dp_subplan_cache_best.cpp:9-14 | get_best_plan returns the stored plan of the set, none exactly for a set not seen |
| DpSubplanCache.DpSubplanCacheBest.CachePlan | src/lib/optimizer/join_ordering/dp_subplan_cache_best.cpp:16-23 | cache_plan as written: a new set gets the plan; a seen set gets it when the stored cost is non-zero |
| DpSubplanCache.DpSubplanCacheBest.CacheCheaper | src/lib/optimizer/join_ordering/dp_subplan_cache_best.cpp:16-23 | corrected cache_plan: keeps the cheaper of stored and offered plan, so the stored plan costs no more than the offered one |
| CompareBenchmarks.CombineOperators | scripts/compare_benchmarks.py:20-26 | combine_operators returns the summed preparation times, the summed execution times and their total |
| CompareBenchmarks.CombineAppend | scripts/compare_benchmarks.py:20-26 | the operator sums split over concatenated operator lists |
| CompareBenchmarks.SignificanceGating | scripts/compare_benchmarks.py:28-44 | a result is significant exactly when the p-value is below 0.001 (NaN never is), both runs last at least 60 s and both have at least 10 iterations; the notes name the failed tests, run time first |
| CompareBenchmarks.Diff | scripts/compare_benchmarks.py:70-74 | the change is defined exactly when the old throughput is positive, and is non-negative / zero exactly when the new throughput is at least / equal to the old |
| CompareBenchmarks.FormatDiff | scripts/compare_benchmarks.py:14-18 | a '+' exactly for a change of at least zero and never for NaN; green exactly for a '+' unless swapped |
| CompareBenchmarks.Change | scripts/compare_benchmarks.py:83-84 | a change-spec/exec cell is blank exactly when the old time is zero, and otherwise non-negative exactly when the time did not fall |
| CompareBenchmarks.OperatorCellsOf | scripts/compare_benchmarks.py:81-85 | the operator cells fail (division by zero) exactly when an old or new total is zero, and otherwise hold the sums and a blank change exactly for a zero old preparation time |
| CompareBenchmarks.RowOf | scripts/compare_benchmarks.py:66-87 | a name mismatch stops with "Benchmark name mismatch"; a row carries the old name, the change and operator cells exactly when operator times are shown; without operator times a matching pair always gives a row |
| CompareBenchmarks.RowsFailurePersists | scripts/compare_benchmarks.py:66-69 | a pair that stops the script stops it for every longer prefix of pairs |
| CompareBenchmarks.Comparison | scripts/compare_benchmarks.py:57-89 | the whole script on two result files: an index error when the old file has no benchmark, or the new one has none and the first old benchmark has operator times (the `and` of line 57 short-circuits), else the rows of the pairs zip forms (a name mismatch stops it) and the average of the defined changes over the number of old benchmarks |
| CompareBenchmarks.Compare | scripts/compare_benchmarks.py:57-89 | the main loop computes Comparison, failing on the same empty files: the rows of the pairs zip forms and the sum of the defined changes divided by the number of old benchmarks |
| CompareBenchmarks.EmptyFiles | scripts/compare_benchmarks.py:57-89 | an empty old file stops the script; with an empty new file it stops exactly when the first old benchmark has operator times, and otherwise prints an empty table with an average of zero |
| CompareBenchmarks.MismatchStops | scripts/compare_benchmarks.py:66-69 | a name mismatch at any paired index stops the whole script |
| CompareBenchmarks.UndefinedChangesAddNothing | scripts/compare_benchmarks.py:70-74 | pairs whose old throughput is not positive add nothing to the sum of changes |
| CompareBenchmarks.AverageCountsUndefinedRows | scripts/compare_benchmarks.py:89 | the average divides by all old benchmarks, NaN rows included: a +100% row beside a NaN row averages to +50% |
| JitEvaluate.Lower | scripts/jit_evaluate.py:11 | lower-casing maps exactly the ASCII capitals to small letters and keeps every other character |
| JitEvaluate.LowerString | scripts/jit_evaluate.py:11 | lower-casing keeps the length of the string |
| JitEvaluate.LowerIdempotent | scripts/jit_evaluate.py:11 | lower-casing twice is lower-casing once |
| JitEvaluate.Str2BoolIgnoresCase | scripts/jit_evaluate.py:10-11 | str2bool does not depend on case and accepts only strings of length 1, 3 or 4 |
| JitEvaluate.Str2BoolAcceptsMixedCase | scripts/jit_evaluate.py:10-11 | "Yes" and "TRUE" are accepted |
| JitEvaluate.Str2BoolRejects | scripts/jit_evaluate.py:10-11 | "no" and "y" are rejected |
| JitEvaluate.AddRunsTotals | scripts/jit_evaluate.py:27-33 | after one run's operators, a name's bucket is its old bucket plus the walltimes of that name, split by the prepare flag, and a name has a bucket exactly when it had or is mentioned |
| JitEvaluate.BucketsAreTotals | scripts/jit_evaluate.py:23-33 | each name's bucket holds the walltimes of all operators of that name over all runs, and exactly the names of some operator have a bucket |
| JitEvaluate.AddOperators | scripts/jit_evaluate.py:27-33 | the inner loop of combine_results adds each operator's walltime to its name's bucket as AddRuns |
| JitEvaluate.CombinedAverages | scripts/jit_evaluate.py:34-37 | with at least one run, a mentioned name's combined times are its totals divided by the number of runs |
| JitEvaluate.Combination | scripts/jit_evaluate.py:18-37 | combine_results: a division by zero without runs, else the pipeline times floored over the runs and per operator name and flag the bucket average |
| JitEvaluate.CombineResults | scripts/jit_evaluate.py:18-37 | the loop of combine_results computes Combination: pipeline times floored over the runs, bucket averages, and a division by zero for no run |
| JitEvaluate.FloorDivision | scripts/jit_evaluate.py:37 | the integer pipeline averages floor, as Python 2 division does for a positive divisor |
| JitEvaluate.CalcSum | scripts/jit_evaluate.py:39-49 | calc_sum's loop computes CalcSumOf: the times of rows without a leading '_' (and only of JitOperatorWrapper when asked) |
| JitEvaluate.CalcSumAppend | scripts/jit_evaluate.py:39-49 | the sums over concatenated row lists are the sums of each |
| JitEvaluate.NoWrapperNoTime | scripts/jit_evaluate.py:45-46 | without a JitOperatorWrapper row the wrapper times are zero |
| JitEvaluate.SlotId | scripts/jit_evaluate.py:86 | an experiment's slot is "interpreted" exactly when jit_use_jit is present and false, otherwise its engine |
| JitEvaluate.Shares | scripts/jit_evaluate.py:70-73 | a row's shares fail exactly when the execute or total time is zero; the prepare share is 0 for a zero prepare time and otherwise the row's fraction |
| JitEvaluate.SharesFailIff | scripts/jit_evaluate.py:70-73 | some row's shares divide by zero exactly when there is a row and the execute or total time is zero |
| JitEvaluate.NonRunSkipped | scripts/jit_evaluate.py:57-58 | an experiment whose task is not "run" changes nothing |
| JitEvaluate.EvaluationQueries | scripts/jit_evaluate.py:84-87 | the query ids of d are exactly those of the experiments that were run |
| JitEvaluate.FailureStops | scripts/jit_evaluate.py:56-87 | an error stops the loop: later experiments do not change the outcome |
| JitEvaluate.SummaryFollowsNames | scripts/jit_evaluate.py:34-36 | with every listed name a bucket, the summary has one row per name, in the listed order, with that bucket's prepare and execute times |
| JitEvaluate.SummaryIsSorted | scripts/jit_evaluate.py:60 | for any sort meeting SortsNames, the sorted summary holds every bucket once with its times, in ascending order of names |
| JitEvaluate.Evaluation | scripts/jit_evaluate.py:54-87 | the dictionary d after the experiments, per query id and slot: the combined pipeline times, the operator shares and the wrapper sums; non-run experiments skipped, the first error final |
| JitEvaluate.Evaluate | scripts/jit_evaluate.py:54-87 | the main loop computes Evaluation: per query id and slot, the pipeline times, the operator sums and the wrapper sums |

## Reading of the code

- `swap_expression_type` (src/lib/operators/jit_operator/jit_utils.cpp:52-65) pairs each comparison
  with its negation, not with its operand-swapped converse; the model keeps that mapping and the
  value-id finding below shows its consequence.
- Step 4.1 of the reducer (src/lib/optimizer/strategy/logical_expression_reducer_rule.cpp:144-151)
  starts from the reduced first branch and then loops from `cbegin` again, so the first branch is
  OR-ed in twice. The model does the same; the result is redundant but has the same truth value.
- The histogram test for `get_next_value("ayzz")`
  (src/test/statistics/chunk_statistics/histograms/histogram_test.cpp:1814-1846) expects `"az"`,
  while `AbstractHistogram::get_next_value`
  (src/lib/statistics/chunk_statistics/histograms/abstract_histogram.cpp:243-245) calls the
  two-argument `next_value`, which appends the first supported character. The model follows the code
  (`StringHistogram.AppendFirstIsNext`) and the contract of histogram_utils_test.cpp.
- The three-argument `next_value` on a value longer than the prefix whose prefix is all last
  characters returns a string shorter than the prefix (`next_value("zzzzz", a-z, 4) == "zzz"`); the
  model keeps it.

## Left out

- Histograms over floating-point values, and the `nextafter`-based `next_value`/`previous_value`
  (histogram_utils.hpp:14-27): floating point is not modelled; cardinality estimates are reals.
- `_get_or_check_prefix_settings` (abstract_histogram.cpp:176-200): it derives a default prefix
  length with `std::log`; the model takes the character range and prefix length as given.
- `_calculate_value_counts`, `from_column`, `from_segment` and `clone`: they iterate storage
  segments; the model takes the sorted value counts as input.
- `description` and `bins_to_csv` of the histograms: output only.
- String `previous_value`: no definition of it is part of this model; `HistogramUtils.PreviousValue`
  is defined as the inverse of `next_value` that its tests (histogram_utils_test.cpp:34-48) describe.
- Dafny integers are unbounded: `BinID`, `ChunkOffset`, counts and `size_t` arithmetic are not
  wrapped, except `ipow` and `base_value_for_prefix_length`, whose 64-bit wrap-around is modelled.
- The table scan's iterators, segment types and the `LeftIsNullable` template parameter become
  sequences of (value, is-null) pairs and a boolean; the vectorisation the blocked path is written for
  is not modelled, only its result.
- `Product`: tables, chunks and segments become datatypes (a table by an identity number), while
  position lists stay objects, so sharing them is reference equality; column types and `name()` are
  not modelled.
- `jit_compute_type`, the arithmetic result type of a binary JIT expression (not part of this
  model), is a parameter of `JitExpressions.ResultType`; the arithmetic and comparison operations of
  `compute` are a parameter too.
- `jit_expression_is_binary` is declared in jit_types.hpp, which is not part of this model; binary
  means every expression type except `Column`, `Not`, `IsNull` and `IsNotNull`.
- Lazy loading of columns in `JitExpression::compute` and the JIT segment readers: the readers are
  not part of this model; a column leaf is taken as already read.
- `JIT_MEASURE` timing, `reserve` calls and the `AbstractJittable` chain plumbing (`_emit` is the
  returned decision).
- JitLimitOperator.JitLimit.Consume: `limit_rows` is an unbounded integer, so a count below zero
  does not wrap as an unsigned counter would; the declaration of `limit_rows` is not part of this
  model.
- JitLimitOperator.JitLimit.Consume: the call to `jit_end_operator_limit()` on a stop
  (jit_limit.cpp:12) is not modelled, as its definition is not part of this model. The countdown
  alone passes tuples again after the stop (`PassesAgainAfterStop`), so "at most n rows" rests on
  that call and on the chunk offset moved at the stop.
- EqualNumElementsHistogram.GetBinStats: requires a nonempty input and `max_num_bins > 0`. The
  string `from_column` (equal_num_elements_histogram.cpp:74-93) passes an empty input through, and
  no caller checks `max_num_bins`; the source divides by zero on both, and the model does not cover
  them.
- EqualHeightHistogram.GetBinStats: requires a nonempty input, which `from_column` ensures, and
  `max_num_bins > 0`, which no caller checks; the source divides by zero there, and the model does
  not cover it.
- `JitReadTuples::description`, `create_default_input_wrappers`, `execute` and the segment-reader
  construction in `before_chunk`: they wire storage iterators, not slots.
- The logical expression reducer mutates shared sub-expressions in place; the model rebuilds
  expressions as values, so aliasing between plan nodes is not captured.
- The iteration order of `ExpressionUnorderedSet` is a parameter (`order`) of the reducer, and the
  visit order of `visit_expression` is followed only as far as the memo needs.
- The predicate-node splitting of the reducer (logical_expression_reducer_rule.cpp:44-55), `name()`,
  and three-valued NULL logic: truth is two-valued and the truth of a non-logical expression is an
  uninterpreted parameter.
- Cardinality cache `_normalize` (cardinality_estimation_cache.cpp:125-133, 226-256): keys are
  taken as already normalised; `load`, `store`, `update`, `to_json`/`from_json` (file I/O, locks,
  JSON), the debug printing and the log output are left out; the log is a flag.
- The t-test of `compare_benchmarks.py` is a parameter (`pValue`); NaN is `None`; the command-line
  handling, file reading and table/colour rendering of both scripts are left out, as are the chart
  imports of `jit_evaluate.py` (lines 13-16), its per-query report table of times and shares
  (lines 89-108) and its charts (lines 110-144). The report is not only formatting: it subscripts
  every query's entries with 'jit' (lines 90 and 101) and 'opossum' (line 100), so a query run with
  only one of the two engines stops the script with a KeyError; the model's `Evaluation` ends
  before that report and does not capture this failure.
- `jit_evaluate.py` sorts the summary by name; the sort is a parameter (`sortedNames`), required
  (`SortsNames`) to list every key set once in ascending order, and
  `str.lower` is modelled for ASCII letters (Python 2 byte strings).
- Float sums in both scripts are exact reals: rounding is not modelled.
- AbstractHistogram.EstimateSelectivity: a zero total count is a failure in the model, where the
  float division of `estimate_selectivity` (abstract_histogram.cpp:618) gives NaN or infinity;
  floating point is not modelled.
- StringHistogram.EstimateSelectivity: the same for strings.
- StringHistogram.MinString: the bins are held as number representations, so `min()` is a string
  within the prefix length; the source's `min()` is the stored first value, which may be longer,
  and such a bound is not modelled.
- StringHistogram.MaxString: the same for `max()`.
- StringHistogram.CanPrune: search values of any length are compared with the bounds as strings
  (`PositionOrder`), but the bounds themselves are strings within the prefix length; bin bounds
  longer than the prefix length, which the source stores and compares as strings, are not modelled.
- StringHistogram.EstimateCardinality: the same restriction to bin bounds within the prefix length.
- StringHistogram.EstimateDistinctCount: the same restriction to bin bounds within the prefix length.
- The `_get_bin_stats` overload of the string equal-width histogram without characters
  (equal_width_histogram.cpp:104-109) only fails with "Not supported."; it is not modelled.
- StringEqualWidthHistogram.GetBinStats: takes value counts of supported strings within the prefix
  length, strictly ascending (`Encodable`), and requires a nonempty input and `max_num_bins > 0`.
  The three-argument `_calculate_value_counts` that the string `from_column`
  (equal_width_histogram.cpp:172-184) calls is not part of this model, so what it does with longer or
  unsupported strings is not captured; on an empty input the source reads `front()` of an empty
  vector, and `max_num_bins` of 0 divides by zero.
- StringEqualWidthHistogram.BinForValue: requires a value within the prefix length, which the
  source only checks with a `DebugAssert` (equal_width_histogram.cpp:333); the release-build lookup of
  a longer value is not modelled.
- StringEqualWidthHistogram.AsStringHistogramWellFormed: the bins presented to the shared string
  estimators are the corrected ones (`BinMin`, `BinMax`); the string estimates from `_bin_min` and
  `_bin_max` as written are not modelled (for integers they are:
  `HistogramKinds.EqualWidthLessThanAsWritten`).
- The plotting scripts, `evaluate.py`, the JIT validate, read-value, segment-reader and write-tuples
  operators, the end-to-end JIT operators, the incomplete cardinality estimator and the other
  declaration-only headers are outside this model.

## Findings

| source | as written | input that shows it | evidently intended | confidence | as-written member | corrected member |
|---|---|---|---|---|---|---|
| src/lib/statistics/chunk_statistics/histograms/abstract_histogram.cpp:42 | the "prefix too long" check compares `ipow(n + 1, prefix_length)`, which wraps modulo 2^64, against the 64-bit limit | characters "0123456789" with prefix length 20: 11^20 wraps below the limit, while the largest representation exceeds 2^64 | reject every setting whose largest number representation does not fit in 64 bits | not executed | StringHistogram.SettingsAsWrittenAcceptOverflow | StringHistogram.ValidSettingsFit |
| src/lib/statistics/chunk_statistics/histograms/equal_width_histogram.cpp:289-300 | `_bin_min(i)` adds `min(i, extra)` on top of `i * _bin_width(i)`, and `_bin_width(i)` already counts the extra value | min 0, max 9, 4 bins of which 2 are wider: `_get_bin_stats` starts bin 1 at 3, `_bin_min(1)` is 4; with counts 3, 3, 2, 2 the LessThan estimate for x < 4 is 3 rows, where the rows `_get_bin_stats` counted below 4 give 4 | the begin value `_get_bin_stats` used for bin i, so that `_bin_share` and `_bin_max` describe the bins that were counted | not executed | EqualWidthHistogram.BinMinAsWrittenExample, HistogramKinds.EqualWidthAsWrittenExample, HistogramKinds.EqualWidthLessThanAsWrittenAgrees | EqualWidthHistogram.BinMaxIsNextBeginMinusOne, HistogramKinds.EqualWidthViewWellFormed, HistogramKinds.EqualWidthCovers |
| src/lib/statistics/chunk_statistics/histograms/equal_width_histogram.cpp:140-145 | the string `_get_bin_stats` converts the representation `bin_width` past each bin's begin to a string before it takes the previous value; for the last bin that is repr(max) + 1 | characters "abcdefghij", prefix length 1, values "a" and "j": repr("j") = 10 is the largest representation, and converting 11 fails the `DebugAssert` of `convert_number_representation_to_string` (a release build throws from `supported_characters.at(10)`) | end the last bin at max without converting the representation past it | not executed | StringEqualWidthHistogram.GetBinStats, StringEqualWidthHistogram.GetBinStatsFailsOnLastString | StringEqualWidthHistogram.GetBinStatsCorrected, StringEqualWidthHistogram.BinStatsUnique |
| src/lib/statistics/chunk_statistics/histograms/equal_width_histogram.cpp:280-286 | the string `_bin_min(i)` adds `min(i, extra)` on top of `i * _string_bin_width(i)`, which already counts the extra representation, as the integer `_bin_min` does | characters "abcdefghij", prefix length 1, strings "a" to "j" in four bins: `_get_bin_stats` begins bin 1 at "d", `_bin_min(1)` is "e" | the first string of the bin `_get_bin_stats` built | not executed | StringEqualWidthHistogram.BinMinAsWritten, StringEqualWidthHistogram.BinMinAsWrittenOffset, StringEqualWidthHistogram.BinMinAsWrittenExample | StringEqualWidthHistogram.BinMin, StringEqualWidthHistogram.BinMax, StringEqualWidthHistogram.BoundsWidthIsStringBinWidth |
| src/lib/statistics/chunk_statistics/histograms/abstract_histogram.cpp:464 | `_estimate_cardinality` dereferences `*value2` before pruning, for every predicate, and its recursive calls for `<=`, `>=` and `BETWEEN` pass none | x <= v for any v from `min()` on, even when a second value is given | read `value2` only for `BETWEEN` | not executed | AbstractHistogramProperties.AsWrittenFailsOnLessThanEquals | AbstractHistogramProperties.EstimateBounds |
| src/lib/statistics/chunk_statistics/histograms/abstract_histogram.cpp:563 | the string `estimate_cardinality` dereferences `*value2` after the character check, for every predicate, and its own recursive calls (LIKE without a wildcard as Equals, the prefix search as LessThan, NOT LIKE as NotEquals or LIKE) pass none | Equals on a supported string with no second value, the call LIKE without a wildcard makes | read `value2` only for `BETWEEN` | not executed | StringHistogram.AsWrittenFailsOnEquals | StringHistogram.EstimateBounds |
| src/lib/statistics/chunk_statistics/histograms/abstract_histogram.cpp:445-451 | NOT LIKE with a fixed prefix before the wildcard prunes when `min` and `max` start with that prefix | 'c%foo' on a bin from "car" to "crime", which holds "cat", a row NOT LIKE keeps | prune only when every value in the range matches the pattern | not executed | StringHistogram.NotLikePrefixAsWrittenPrunesMatchingRow | StringHistogram.NotLikePruningIsSound, StringHistogram.CanPrune |
| src/lib/statistics/chunk_statistics/histograms/abstract_histogram.cpp:409-416 | LIKE with a fixed prefix searches the bins for the range of the prefix, computed from the last characters taken as a number | 'z%' over characters "xyz" with prefix length 1, on a bin holding "z": the successor of "z" is "z" itself, so the bin is pruned | prune only when no value of the histogram can start with the prefix | not executed | StringHistogram.LikePrefixAsWrittenPrunesLastPrefix | StringHistogram.LikePruningIsSound, StringHistogram.CanPrune |
| src/lib/statistics/chunk_statistics/histograms/abstract_histogram.cpp:409-416 | the fixed prefix is cut at the first '%' only, so a '_' in it is read as a character | 'b_%' over characters "_`ab" with prefix length 2, on a bin holding "ba", which matches | cut the prefix at the first wildcard of either kind | not executed | StringHistogram.LikePrefixAsWrittenPrunesSingleCharacterWildcard | StringHistogram.LikePruningIsSound, StringHistogram.CanPrune |
| src/lib/operators/jit_operator/operators/jit_read_tuples.cpp:303-311 | with the column on the right, the comparison is first swapped through `swap_expression_type` (its negation) and then rewritten for value ids | 2 > column on the dictionary [1, 3]: the rewritten predicate selects the row holding 3 | the value-id predicate selects exactly the rows the value predicate selects | not executed | JitValueIds.AsWrittenSwappedComparisonWrong | JitValueIds.ValueIdPredicateSound, JitReadTuplesOperator.JitReadTuples.PredicateFor, JitReadTuplesOperator.JitReadTuples.AddValueIdPredicate |
| src/lib/operators/jit_operator/operators/jit_filter.cpp:27 | with an expression, only the computed boolean value is consulted, never its NULL flag | a NULL row of a nullable Bool column whose slot still holds TRUE | a NULL result does not pass, as for the condition | not executed | JitFilterOperator.AsWrittenPassesNull | JitFilterOperator.FilterModesAgree |
| src/lib/operators/jit_operator/operators/jit_read_tuples.cpp:249-278 | `add_literal_value` and `add_parameter_value` reuse an entry registered by value when a value id is asked for | a literal 5 added by value and then as a value id gets the by-value slot, and no value-id input exists | a by-value request reuses a by-value entry; a value-id request never reuses an entry and always registers a fresh value-id entry | not executed | JitReadTuplesOperator.AsWrittenValueIdLiteralLost | JitReadTuplesOperator.JitReadTuples.AddLiteralValue |
| src/lib/operators/jit_operator/operators/jit_read_tuples.cpp:265-278 | the same for parameters | parameter 7 by value, then as a value id | a by-value request reuses a by-value entry; a value-id request always registers a fresh value-id parameter entry | not executed | JitReadTuplesOperator.AsWrittenValueIdParameterLost | JitReadTuplesOperator.JitReadTuples.AddParameterValue |
| src/lib/optimizer/join_ordering/dp_subplan_cache_best.cpp:19-21 | a stored plan is replaced whenever its cost is non-zero, without comparing costs | cache a plan of cost 1, then one of cost 2 for the same vertex set: the costlier one is kept | keep the cheaper plan | not executed | DpSubplanCache.AsWrittenKeepsCostlierPlan | DpSubplanCache.CachedPlanIsCheapest |
