/**
 * The benchmark comparison script: it pairs the benchmarks of an old and a new result file, and
 * for each pair reports the throughput change, whether the difference is significant, and (when
 * both files carry operator times) the preparation and execution times of the operators.
 *
 * The JSON files become sequences of `Benchmark` values. The p-value of Welch's t-test (SciPy) is
 * a parameter, with `None` standing for NaN. A NaN throughput change is `None` as well. The
 * rendered table and its colours are not part of this model; the cells are kept as numbers.
 */
module CompareBenchmarks {
  import opened Wrappers

  const P_VALUE_SIGNIFICANCE_THRESHOLD: real := 0.001
  const MIN_ITERATIONS: nat := 10
  const MIN_RUNTIME_NS: real := 60.0 * 1000.0 * 1000.0 * 1000.0

  /** The times of one operator, after `int(...)`. */
  datatype OperatorTimes = OperatorTimes(preparationTime: int, executionTime: int)

  /** One benchmark of a result file; `operators` is `None` when the key is absent. */
  datatype Benchmark = Benchmark(
    name: string,
    itemsPerSecond: real,
    iterations: int,
    iterationDurations: seq<real>,
    operators: Option<seq<OperatorTimes>>)

  datatype Color = Green | Red

  /** The notes of the p-value cell: "(run time too short) " and "(not enough runs) ". */
  datatype Note = RunTimeTooShort | NotEnoughRuns

  /** The operator cells of a row; a change is `None` where the cell is left blank. */
  datatype OperatorCells = OperatorCells(
    oldSpez: int, newSpez: int, oldExec: int, newExec: int,
    oldSpezShare: real, newSpezShare: real,
    changeSpez: Option<real>, changeExec: Option<real>)

  datatype Row = Row(name: string, diff: Option<real>, significant: bool, notes: seq<Note>, operators: Option<OperatorCells>)

  /** The table: one row per benchmark pair and the average change. */
  datatype Report = Report(rows: seq<Row>, average: real, hasOperatorTimes: bool)

  function Sum(xs: seq<real>): real
    decreases |xs|
  {
    if xs == [] then 0.0 else Sum(xs[..|xs| - 1]) + xs[|xs| - 1]
  }

  function SumPreparation(ops: seq<OperatorTimes>): int
    decreases |ops|
  {
    if ops == [] then 0 else SumPreparation(ops[..|ops| - 1]) + ops[|ops| - 1].preparationTime
  }

  function SumExecution(ops: seq<OperatorTimes>): int
    decreases |ops|
  {
    if ops == [] then 0 else SumExecution(ops[..|ops| - 1]) + ops[|ops| - 1].executionTime
  }

  /** `combine_operators`: the summed preparation and execution times and their total. */
  method CombineOperators(operators: seq<OperatorTimes>) returns (spezTime: int, execTime: int, total: int)
    ensures spezTime == SumPreparation(operators) && execTime == SumExecution(operators)
    ensures total == spezTime + execTime
  {
    spezTime, execTime := 0, 0;
    var i := 0;
    while i < |operators|
      invariant 0 <= i <= |operators|
      invariant spezTime == SumPreparation(operators[..i]) && execTime == SumExecution(operators[..i])
    {
      assert operators[..i + 1][..i] == operators[..i];
      spezTime := spezTime + operators[i].preparationTime;
      execTime := execTime + operators[i].executionTime;
      i := i + 1;
    }
    assert operators[..i] == operators;
    total := spezTime + execTime;
  }

  /** The times of two operator lists together are the sums of the times of each. */
  lemma {:induction false} CombineAppend(a: seq<OperatorTimes>, b: seq<OperatorTimes>)
    ensures SumPreparation(a + b) == SumPreparation(a) + SumPreparation(b)
    ensures SumExecution(a + b) == SumExecution(a) + SumExecution(b)
    decreases |b|
  {
    if b != [] {
      var init := b[..|b| - 1];
      CombineAppend(a, init);
      assert (a + b)[..|a + b| - 1] == a + init;
      assert (a + b)[|a + b| - 1] == b[|b| - 1];
    } else {
      assert a + b == a;
    }
  }

  /**
   * The gating of `calculate_and_format_p_value`: the p-value test, then the run-time test, then
   * the iteration-count test, each of the last two clearing the flag and adding a note.
   */
  function Significance(prev: Benchmark, next: Benchmark, pValue: Option<real>): (bool, seq<Note>)
  {
    var isSignificant := pValue.Some? && pValue.value < P_VALUE_SIGNIFICANCE_THRESHOLD;
    var oldRuntime := Sum(prev.iterationDurations);
    var newRuntime := Sum(next.iterationDurations);
    var (isSignificant, notes) :=
      if oldRuntime < MIN_RUNTIME_NS || newRuntime < MIN_RUNTIME_NS then (false, [RunTimeTooShort])
      else (isSignificant, []);
    var (isSignificant, notes) :=
      if |prev.iterationDurations| < MIN_ITERATIONS || |next.iterationDurations| < MIN_ITERATIONS
      then (false, notes + [NotEnoughRuns])
      else (isSignificant, notes);
    (isSignificant, notes)
  }

  /**
   * Significant only when the p-value is below the threshold (NaN never is), both runs are long
   * enough and both have enough iterations; the notes name the tests that failed, run time first.
   */
  lemma SignificanceGating(prev: Benchmark, next: Benchmark, pValue: Option<real>)
    ensures var r := Significance(prev, next, pValue);
            var tooShort := Sum(prev.iterationDurations) < MIN_RUNTIME_NS || Sum(next.iterationDurations) < MIN_RUNTIME_NS;
            var tooFew := |prev.iterationDurations| < MIN_ITERATIONS || |next.iterationDurations| < MIN_ITERATIONS;
            && (r.0 <==> pValue.Some? && pValue.value < P_VALUE_SIGNIFICANCE_THRESHOLD && !tooShort && !tooFew)
            && (r.1 == (if tooShort then [RunTimeTooShort] else []) + (if tooFew then [NotEnoughRuns] else []))
  {
  }

  /** The relative throughput change, NaN (`None`) when the old throughput is not positive. */
  function Diff(prev: Benchmark, next: Benchmark): (r: Option<real>)
    ensures r.Some? <==> prev.itemsPerSecond > 0.0
    ensures r.Some? ==> (r.value >= 0.0 <==> next.itemsPerSecond >= prev.itemsPerSecond)
    ensures r.Some? ==> (r.value == 0.0 <==> next.itemsPerSecond == prev.itemsPerSecond)
  {
    if prev.itemsPerSecond > 0.0 then
      var q := next.itemsPerSecond / prev.itemsPerSecond;
      assert q * prev.itemsPerSecond == next.itemsPerSecond;
      Some(q - 1.0)
    else None
  }

  /**
   * `format_diff`: a '+' exactly for a change of at least zero (not for NaN); green for a '+'
   * unless `swap` inverts the polarity.
   */
  function FormatDiff(diff: Option<real>, swap: bool): (r: (bool, Color))
    ensures r.0 <==> diff.Some? && diff.value >= 0.0
    ensures r.1 == Green <==> r.0 != swap
  {
    if diff.Some? && diff.value >= 0.0 then (true, if !swap then Green else Red)
    else (false, if !swap then Red else Green)
  }

  /** A `change spec`/`change exec` cell: blank when the old time is zero. */
  function Change(prev: int, next: int): (r: Option<real>)
    ensures r.None? <==> prev == 0
    ensures r.Some? && prev > 0 ==> (r.value >= 0.0 <==> next >= prev)
  {
    if prev != 0 then
      var q := next as real / prev as real;
      assert q * prev as real == next as real;
      Some(q - 1.0)
    else None
  }

  /** The operator cells of a pair; a zero total stops the script with a division by zero. */
  function OperatorCellsOf(oldOps: seq<OperatorTimes>, newOps: seq<OperatorTimes>): (r: Result<OperatorCells>)
    ensures r.Failure? <==> SumPreparation(oldOps) + SumExecution(oldOps) == 0 || SumPreparation(newOps) + SumExecution(newOps) == 0
    ensures r.Success? ==> r.value.oldSpez == SumPreparation(oldOps) && r.value.newExec == SumExecution(newOps)
    ensures r.Success? ==> (r.value.changeSpez.None? <==> SumPreparation(oldOps) == 0)
  {
    var oldSpez, oldExec := SumPreparation(oldOps), SumExecution(oldOps);
    var newSpez, newExec := SumPreparation(newOps), SumExecution(newOps);
    if oldSpez + oldExec == 0 || newSpez + newExec == 0 then Failure("ZeroDivisionError")
    else Success(OperatorCells(oldSpez, newSpez, oldExec, newExec,
                               oldSpez as real / (oldSpez + oldExec) as real, newSpez as real / (newSpez + newExec) as real,
                               Change(oldSpez, newSpez), Change(oldExec, newExec)))
  }

  /**
   * One iteration of the main loop: a name mismatch stops the script, a missing operator list
   * where operator times are shown is a key error.
   */
  function RowOf(prev: Benchmark, next: Benchmark, pValue: Option<real>, hasOperatorTimes: bool): (r: Result<Row>)
    ensures prev.name != next.name ==> r == Failure("Benchmark name mismatch")
    ensures r.Success? ==> r.value.name == prev.name && r.value.diff == Diff(prev, next)
    ensures r.Success? ==> (r.value.operators.Some? <==> hasOperatorTimes)
    ensures !hasOperatorTimes && prev.name == next.name ==> r.Success?
  {
    if prev.name != next.name then Failure("Benchmark name mismatch")
    else
      var (significant, notes) := Significance(prev, next, pValue);
      if !hasOperatorTimes then Success(Row(prev.name, Diff(prev, next), significant, notes, None))
      else if prev.operators.None? || next.operators.None? then Failure("KeyError: operators")
      else
        match OperatorCellsOf(prev.operators.value, next.operators.value)
        case Failure(e) => Failure(e)
        case Success(cells) => Success(Row(prev.name, Diff(prev, next), significant, notes, Some(cells)))
  }

  /** The rows of the first `n` pairs, or the error of the first pair that stops the script. */
  function RowsOf(olds: seq<Benchmark>, news: seq<Benchmark>, n: nat, pValue: (seq<real>, seq<real>) -> Option<real>, hasOperatorTimes: bool): Result<seq<Row>>
    requires n <= |olds| && n <= |news|
  {
    if n == 0 then Success([])
    else match RowsOf(olds, news, n - 1, pValue, hasOperatorTimes)
      case Failure(e) => Failure(e)
      case Success(rows) =>
        var prev, next := olds[n - 1], news[n - 1];
        match RowOf(prev, next, pValue(prev.iterationDurations, next.iterationDurations), hasOperatorTimes)
        case Failure(e) => Failure(e)
        case Success(row) => Success(rows + [row])
  }

  /** `average_diff_sum` after `n` pairs: the changes that are not NaN, summed. */
  function DiffSum(olds: seq<Benchmark>, news: seq<Benchmark>, n: nat): real
    requires n <= |olds| && n <= |news|
  {
    if n == 0 then 0.0
    else DiffSum(olds, news, n - 1) + (var d := Diff(olds[n - 1], news[n - 1]); if d.Some? then d.value else 0.0)
  }

  function Min(a: nat, b: nat): nat
  {
    if a <= b then a else b
  }

  /**
   * `has_operator_times`: decided by the first benchmark of each file; the `and` looks at the new
   * file only when the first old benchmark has operator times.
   */
  function HasOperatorTimes(olds: seq<Benchmark>, news: seq<Benchmark>): bool
    requires |olds| > 0 && (olds[0].operators.Some? ==> |news| > 0)
  {
    olds[0].operators.Some? && news[0].operators.Some?
  }

  /**
   * The whole script on two result files: an index error when the old file has no benchmark, or
   * when the new one has none and the first old benchmark has operator times; otherwise
   * the rows of the pairs `zip` forms and the average, which divides by the number of old
   * benchmarks.
   */
  function Comparison(olds: seq<Benchmark>, news: seq<Benchmark>, pValue: (seq<real>, seq<real>) -> Option<real>): Result<Report>
  {
    if |olds| == 0 || (olds[0].operators.Some? && |news| == 0) then Failure("IndexError")
    else
      var n := Min(|olds|, |news|);
      match RowsOf(olds, news, n, pValue, HasOperatorTimes(olds, news))
      case Failure(e) => Failure(e)
      case Success(rows) => Success(Report(rows, DiffSum(olds, news, n) / |olds| as real, HasOperatorTimes(olds, news)))
  }

  /** A pair that stops the script stops it for every longer prefix too. */
  lemma {:induction false} RowsFailurePersists(olds: seq<Benchmark>, news: seq<Benchmark>, n: nat, m: nat, pValue: (seq<real>, seq<real>) -> Option<real>, hasOperatorTimes: bool)
    requires n <= m <= |olds| && m <= |news|
    requires RowsOf(olds, news, n, pValue, hasOperatorTimes).Failure?
    ensures RowsOf(olds, news, m, pValue, hasOperatorTimes) == RowsOf(olds, news, n, pValue, hasOperatorTimes)
    decreases m - n
  {
    if n < m {
      RowsFailurePersists(olds, news, n + 1, m, pValue, hasOperatorTimes);
    }
  }

  /** The main loop of the script. */
  method Compare(olds: seq<Benchmark>, news: seq<Benchmark>, pValue: (seq<real>, seq<real>) -> Option<real>) returns (r: Result<Report>)
    ensures r == Comparison(olds, news, pValue)
  {
    if |olds| == 0 || (olds[0].operators.Some? && |news| == 0) {
      return Failure("IndexError");
    }
    var hasOperatorTimes := olds[0].operators.Some? && news[0].operators.Some?;
    var n := Min(|olds|, |news|);
    var rows: seq<Row> := [];
    var averageDiffSum := 0.0;
    var i := 0;
    while i < n
      invariant 0 <= i <= n
      invariant RowsOf(olds, news, i, pValue, hasOperatorTimes) == Success(rows)
      invariant averageDiffSum == DiffSum(olds, news, i)
    {
      var prev, next := olds[i], news[i];
      var row := RowOf(prev, next, pValue(prev.iterationDurations, next.iterationDurations), hasOperatorTimes);
      if row.Failure? {
        RowsFailurePersists(olds, news, i + 1, n, pValue, hasOperatorTimes);
        return Failure(row.error);
      }
      if prev.itemsPerSecond > 0.0 {
        averageDiffSum := averageDiffSum + Diff(prev, next).value;
      }
      assert RowsOf(olds, news, i + 1, pValue, hasOperatorTimes) == Success(rows + [row.value]);
      rows := rows + [row.value];
      i := i + 1;
    }
    r := Success(Report(rows, averageDiffSum / |olds| as real, hasOperatorTimes));
  }

  /**
   * The first subscript fails exactly on an empty old file, the second only when the `and` reaches
   * it; an empty new file after an old one without operator times gives an empty table and an
   * average of zero.
   */
  lemma EmptyFiles(olds: seq<Benchmark>, news: seq<Benchmark>, pValue: (seq<real>, seq<real>) -> Option<real>)
    ensures |olds| == 0 ==> Comparison(olds, news, pValue).Failure?
    ensures |olds| > 0 && |news| == 0 ==>
      (Comparison(olds, news, pValue).Failure? <==> olds[0].operators.Some?)
    ensures |olds| > 0 && |news| == 0 && olds[0].operators.None? ==>
      Comparison(olds, news, pValue) == Success(Report([], 0.0, false))
  {
    if |olds| > 0 && |news| == 0 && olds[0].operators.None? {
      assert RowsOf(olds, news, 0, pValue, false) == Success([]);
    }
  }

  /** A name mismatch at any paired index stops the script before any table is shown. */
  lemma MismatchStops(olds: seq<Benchmark>, news: seq<Benchmark>, pValue: (seq<real>, seq<real>) -> Option<real>, i: nat)
    requires i < |olds| && i < |news| && olds[i].name != news[i].name
    ensures Comparison(olds, news, pValue).Failure?
  {
    var n := Min(|olds|, |news|);
    var h := HasOperatorTimes(olds, news);
    assert RowsOf(olds, news, i + 1, pValue, h).Failure?;
    RowsFailurePersists(olds, news, i + 1, n, pValue, h);
  }

  /** A pair whose old throughput is not positive adds nothing to the sum of changes. */
  lemma {:induction false} UndefinedChangesAddNothing(olds: seq<Benchmark>, news: seq<Benchmark>, n: nat)
    requires n <= |olds| && n <= |news|
    requires forall i :: 0 <= i < n ==> olds[i].itemsPerSecond <= 0.0
    ensures DiffSum(olds, news, n) == 0.0
    decreases n
  {
    if n > 0 {
      UndefinedChangesAddNothing(olds, news, n - 1);
    }
  }

  /**
   * The average is not the mean of the defined changes: a NaN row still counts in the divisor, so
   * a change of 100% next to a NaN row averages to 50%.
   */
  lemma AverageCountsUndefinedRows(a: Benchmark, b: Benchmark, c: Benchmark, d: Benchmark, pValue: (seq<real>, seq<real>) -> Option<real>)
    requires a.name == c.name && b.name == d.name
    requires a.itemsPerSecond == 1.0 && c.itemsPerSecond == 2.0 && b.itemsPerSecond == 0.0
    requires a.operators.None? && c.operators.None?
    ensures Comparison([a, b], [c, d], pValue).Success?
    ensures Comparison([a, b], [c, d], pValue).value.average == 0.5
  {
    var h := HasOperatorTimes([a, b], [c, d]);
    assert !h;
    assert RowsOf([a, b], [c, d], 1, pValue, h).Success?;
    assert RowsOf([a, b], [c, d], 2, pValue, h).Success?;
    assert DiffSum([a, b], [c, d], 1) == 1.0;
    assert DiffSum([a, b], [c, d], 2) == 1.0;
  }
}
