/**
 * The JIT evaluation script: it reads the results of benchmark experiments, averages the
 * pipeline and per-operator times of each experiment that was run, and keeps, per query and per
 * engine, the averaged pipeline times, the operator times and the times of the JIT wrapper.
 *
 * The JSON file becomes a sequence of `Experiment` values. The script is Python 2: pipeline times
 * are integers and `/` on them floors; walltimes are floats, modelled as reals. Sorting the
 * operator names is a parameter that lists a set of names in order.
 */
module JitEvaluate {
  import opened Wrappers
  import HistogramUtils

  // --- str2bool ---

  /** Python 2 `str.lower` on one character: ASCII upper case only. */
  function Lower(c: char): (r: char)
    ensures 'A' <= c <= 'Z' ==> 'a' <= r <= 'z'
    ensures !('A' <= c <= 'Z') ==> r == c
  {
    if 'A' <= c <= 'Z' then (c as int - 'A' as int + 'a' as int) as char else c
  }

  function LowerString(s: string): (r: string)
    ensures |r| == |s|
    decreases |s|
  {
    if s == [] then [] else LowerString(s[..|s| - 1]) + [Lower(s[|s| - 1])]
  }

  /** `str2bool`: one of the accepted spellings of true, in any case. */
  function Str2Bool(v: string): bool
  {
    LowerString(v) in ["yes", "true", "t", "1"]
  }

  /** Lower-casing twice changes nothing more. */
  lemma {:induction false} LowerIdempotent(s: string)
    ensures LowerString(LowerString(s)) == LowerString(s)
    decreases |s|
  {
    if s != [] {
      var init := s[..|s| - 1];
      LowerIdempotent(init);
      assert LowerString(s)[..|s| - 1] == LowerString(init);
    }
  }

  /** `str2bool` does not depend on case, and accepts only strings of length 1, 3 or 4. */
  lemma Str2BoolIgnoresCase(v: string)
    ensures Str2Bool(LowerString(v)) == Str2Bool(v)
    ensures Str2Bool(v) ==> |v| == 1 || |v| == 3 || |v| == 4
  {
    var l := LowerString(v);
    LowerIdempotent(v);
    AcceptedLengths(l, v);
  }

  lemma AcceptedLengths(l: string, v: string)
    requires |l| == |v|
    ensures l in ["yes", "true", "t", "1"] ==> |v| == 1 || |v| == 3 || |v| == 4
  {
  }

  /** "Yes" and "TRUE" are accepted. */
  lemma Str2BoolAcceptsMixedCase()
    ensures Str2Bool("Yes") && Str2Bool("TRUE")
  {
    assert "Yes"[..2] == "Ye" && "Ye"[..1] == "Y" && "Y"[..0] == [];
    assert LowerString("Yes") == "yes";
    assert "TRUE"[..3] == "TRU" && "TRU"[..2] == "TR" && "TR"[..1] == "T" && "T"[..0] == [];
    assert LowerString("TRUE") == "true";
  }

  /** "no" and "y" are not. */
  lemma Str2BoolRejects()
    ensures !Str2Bool("no") && !Str2Bool("y")
  {
    assert "no"[..1] == "n" && "n"[..0] == [];
    assert LowerString("no") == "no";
    assert "y"[..0] == [];
    assert LowerString("y") == "y";
  }

  // --- combine_results ---

  /** One operator of a query run: its name, whether the time was spent preparing, and the walltime. */
  datatype OperatorRun = OperatorRun(name: string, prepare: bool, walltime: real)

  /** One run of a query: the three pipeline times (after `int(...)`) and the operators. */
  datatype QueryRun = QueryRun(compileTime: int, executionTime: int, optimizeTime: int, operators: seq<OperatorRun>)

  /** The prepare and execute times of one operator name. */
  datatype Bucket = Bucket(prepare: real, execute: real)

  /** The pipeline times of an experiment, averaged with floor division. */
  datatype PipelineTimes = PipelineTimes(compile: int, execution: int, optimize: int, total: int)

  /** What `combine_results` returns: the averaged buckets by name and the pipeline times. */
  datatype Combined = Combined(buckets: map<string, Bucket>, pipeline: PipelineTimes)

  /** The bucket of a name, zero when the name has not been seen. */
  function Get(d: map<string, Bucket>, name: string): Bucket
  {
    if name in d then d[name] else Bucket(0.0, 0.0)
  }

  /** One operator added to its name's prepare or execute bucket. */
  function AddRun(d: map<string, Bucket>, op: OperatorRun): map<string, Bucket>
  {
    var b := Get(d, op.name);
    if op.prepare then d[op.name := Bucket(b.prepare + op.walltime, b.execute)]
    else d[op.name := Bucket(b.prepare, b.execute + op.walltime)]
  }

  function AddRuns(d: map<string, Bucket>, ops: seq<OperatorRun>): map<string, Bucket>
    decreases |ops|
  {
    if ops == [] then d else AddRun(AddRuns(d, ops[..|ops| - 1]), ops[|ops| - 1])
  }

  /** The dictionary `d` after the given runs. */
  function Buckets(results: seq<QueryRun>): map<string, Bucket>
    decreases |results|
  {
    if results == [] then map[] else AddRuns(Buckets(results[..|results| - 1]), results[|results| - 1].operators)
  }

  /** The summed compile, execution and optimize times. */
  function PipelineSums(results: seq<QueryRun>): (int, int, int)
    decreases |results|
  {
    if results == [] then (0, 0, 0)
    else
      var (c, e, o) := PipelineSums(results[..|results| - 1]);
      var last := results[|results| - 1];
      (c + last.compileTime, e + last.executionTime, o + last.optimizeTime)
  }

  /** `combine_results`; without any run the averages divide by zero. */
  function Combination(results: seq<QueryRun>): Result<Combined>
  {
    if |results| == 0 then Failure("ZeroDivisionError")
    else
      var n := |results|;
      var d := Buckets(results);
      var (c, e, o) := PipelineSums(results);
      Success(Combined(map k | k in d :: Bucket(d[k].prepare / n as real, d[k].execute / n as real),
                       PipelineTimes(c / n, e / n, o / n, (c + e + o) / n)))
  }

  /** The walltimes of the operators called `name` in the given prepare mode, summed. */
  function OpsTotal(ops: seq<OperatorRun>, name: string, prepare: bool): real
    decreases |ops|
  {
    if ops == [] then 0.0
    else OpsTotal(ops[..|ops| - 1], name, prepare)
         + (var op := ops[|ops| - 1]; if op.name == name && op.prepare == prepare then op.walltime else 0.0)
  }

  /** The same over all runs. */
  function NameTotal(results: seq<QueryRun>, name: string, prepare: bool): real
    decreases |results|
  {
    if results == [] then 0.0
    else NameTotal(results[..|results| - 1], name, prepare) + OpsTotal(results[|results| - 1].operators, name, prepare)
  }

  predicate OpsMention(ops: seq<OperatorRun>, name: string)
  {
    exists j :: 0 <= j < |ops| && ops[j].name == name
  }

  predicate Mentions(results: seq<QueryRun>, name: string)
  {
    exists i :: 0 <= i < |results| && OpsMention(results[i].operators, name)
  }

  lemma {:induction false} AddRunsTotals(d: map<string, Bucket>, ops: seq<OperatorRun>, name: string)
    ensures Get(AddRuns(d, ops), name) == Bucket(Get(d, name).prepare + OpsTotal(ops, name, true), Get(d, name).execute + OpsTotal(ops, name, false))
    ensures name in AddRuns(d, ops) <==> name in d || OpsMention(ops, name)
    decreases |ops|
  {
    if ops != [] {
      var init := ops[..|ops| - 1];
      AddRunsTotals(d, init, name);
      if OpsMention(init, name) {
        var j :| 0 <= j < |init| && init[j].name == name;
        assert ops[j].name == name;
      }
      if OpsMention(ops, name) && ops[|ops| - 1].name != name {
        var j :| 0 <= j < |ops| && ops[j].name == name;
        assert init[j].name == name;
      }
    }
  }

  /**
   * Each name's bucket holds the walltimes of all operators of that name, split by the prepare
   * flag, and exactly the names of some operator have a bucket.
   */
  lemma {:induction false} BucketsAreTotals(results: seq<QueryRun>, name: string)
    ensures Get(Buckets(results), name) == Bucket(NameTotal(results, name, true), NameTotal(results, name, false))
    ensures name in Buckets(results) <==> Mentions(results, name)
    decreases |results|
  {
    if results != [] {
      var init := results[..|results| - 1];
      var last := results[|results| - 1];
      BucketsAreTotals(init, name);
      AddRunsTotals(Buckets(init), last.operators, name);
      if Mentions(init, name) {
        var i :| 0 <= i < |init| && OpsMention(init[i].operators, name);
        assert results[i] == init[i];
      }
      if Mentions(results, name) && !OpsMention(last.operators, name) {
        var i :| 0 <= i < |results| && OpsMention(results[i].operators, name);
        assert i < |init| && init[i] == results[i];
      }
    }
  }

  /** The inner loop of `combine_results`: each operator's walltime added to its name's bucket. */
  method AddOperators(d: map<string, Bucket>, ops: seq<OperatorRun>) returns (d': map<string, Bucket>)
    ensures d' == AddRuns(d, ops)
  {
    d' := d;
    var j := 0;
    while j < |ops|
      invariant 0 <= j <= |ops|
      invariant d' == AddRuns(d, ops[..j])
    {
      var op := ops[j];
      assert ops[..j + 1][..j] == ops[..j];
      if op.name !in d' {
        d' := d'[op.name := Bucket(0.0, 0.0)];
      }
      if op.prepare {
        d' := d'[op.name := Bucket(d'[op.name].prepare + op.walltime, d'[op.name].execute)];
      } else {
        d' := d'[op.name := Bucket(d'[op.name].prepare, d'[op.name].execute + op.walltime)];
      }
      j := j + 1;
    }
    assert ops[..j] == ops;
  }

  /** After `combine_results`, a name's bucket holds its total walltimes divided by the number of runs. */
  lemma CombinedAverages(results: seq<QueryRun>, name: string)
    requires |results| > 0 && Mentions(results, name)
    ensures Combination(results).Success?
    ensures var b := Combination(results).value.buckets;
            name in b && b[name] == Bucket(NameTotal(results, name, true) / |results| as real, NameTotal(results, name, false) / |results| as real)
  {
    BucketsAreTotals(results, name);
  }

  /** The accumulation of `combine_results` over the runs, then the averages. */
  method CombineResults(results: seq<QueryRun>) returns (r: Result<Combined>)
    ensures r == Combination(results)
  {
    var d: map<string, Bucket> := map[];
    var compileTime, executionTime, optimizeTime := 0, 0, 0;
    var i := 0;
    while i < |results|
      invariant 0 <= i <= |results|
      invariant d == Buckets(results[..i])
      invariant (compileTime, executionTime, optimizeTime) == PipelineSums(results[..i])
    {
      var result := results[i];
      assert results[..i + 1][..i] == results[..i];
      compileTime := compileTime + result.compileTime;
      executionTime := executionTime + result.executionTime;
      optimizeTime := optimizeTime + result.optimizeTime;
      d := AddOperators(d, result.operators);
      i := i + 1;
    }
    assert results[..i] == results;
    var n := |results|;
    if n == 0 {
      return Failure("ZeroDivisionError");
    }
    r := Success(Combined(map k | k in d :: Bucket(d[k].prepare / n as real, d[k].execute / n as real),
                          PipelineTimes(compileTime / n, executionTime / n, optimizeTime / n,
                                        (compileTime + executionTime + optimizeTime) / n)));
  }

  /** Python 2 `/` on integers floors, which for a positive divisor is Dafny's division. */
  lemma FloorDivision(a: int, n: int)
    requires n > 0
    ensures (a / n) * n <= a < (a / n + 1) * n
  {
  }

  // --- calc_sum ---

  /** One row of the summary: a name and its averaged times. */
  datatype SummaryRow = SummaryRow(name: string, prepare: real, execute: real)

  /** The rows `calc_sum` counts: no leading '_', and only the JIT wrapper when asked for. */
  predicate Counted(name: string, onlyJitWrapper: bool)
  {
    !(|name| > 0 && name[0] == '_') && (!onlyJitWrapper || name == "JitOperatorWrapper")
  }

  function CalcSumOf(rows: seq<SummaryRow>, onlyJitWrapper: bool): (real, real)
    decreases |rows|
  {
    if rows == [] then (0.0, 0.0)
    else
      var (p, e) := CalcSumOf(rows[..|rows| - 1], onlyJitWrapper);
      var last := rows[|rows| - 1];
      if Counted(last.name, onlyJitWrapper) then (p + last.prepare, e + last.execute) else (p, e)
  }

  /** `calc_sum`. */
  method CalcSum(rows: seq<SummaryRow>, onlyJitWrapper: bool) returns (prepare: real, execute: real)
    ensures (prepare, execute) == CalcSumOf(rows, onlyJitWrapper)
  {
    prepare, execute := 0.0, 0.0;
    var i := 0;
    while i < |rows|
      invariant 0 <= i <= |rows|
      invariant (prepare, execute) == CalcSumOf(rows[..i], onlyJitWrapper)
    {
      assert rows[..i + 1][..i] == rows[..i];
      var row := rows[i];
      i := i + 1;
      if |row.name| > 0 && row.name[0] == '_' {
        continue;
      }
      if onlyJitWrapper && row.name != "JitOperatorWrapper" {
        continue;
      }
      prepare := prepare + row.prepare;
      execute := execute + row.execute;
    }
    assert rows[..i] == rows;
  }

  /** The sums of two row lists together are the sums of each. */
  lemma {:induction false} CalcSumAppend(a: seq<SummaryRow>, b: seq<SummaryRow>, onlyJitWrapper: bool)
    ensures CalcSumOf(a + b, onlyJitWrapper).0 == CalcSumOf(a, onlyJitWrapper).0 + CalcSumOf(b, onlyJitWrapper).0
    ensures CalcSumOf(a + b, onlyJitWrapper).1 == CalcSumOf(a, onlyJitWrapper).1 + CalcSumOf(b, onlyJitWrapper).1
    decreases |b|
  {
    if b == [] {
      assert a + b == a;
    } else {
      var init := b[..|b| - 1];
      CalcSumAppend(a, init, onlyJitWrapper);
      assert (a + b)[..|a + b| - 1] == a + init;
      assert (a + b)[|a + b| - 1] == b[|b| - 1];
    }
  }

  /** A row list without any JIT wrapper row has zero wrapper times. */
  lemma {:induction false} NoWrapperNoTime(rows: seq<SummaryRow>)
    requires forall i :: 0 <= i < |rows| ==> rows[i].name != "JitOperatorWrapper"
    ensures CalcSumOf(rows, true) == (0.0, 0.0)
    decreases |rows|
  {
    if rows != [] {
      NoWrapperNoTime(rows[..|rows| - 1]);
    }
  }

  // --- The main loop ---

  /** One experiment of the result file; `jitUseJit` is `None` when the key is absent. */
  datatype Experiment = Experiment(task: string, queryId: string, engine: string, jitUseJit: Option<bool>, results: seq<QueryRun>)

  /** What the script keeps per query and slot. */
  datatype Entry = Entry(pipeline: PipelineTimes, operators: (real, real, real), jitWrapper: (real, real))

  /** The slot of an experiment: its engine, or "interpreted" when specialisation was switched off. */
  function SlotId(engine: string, jitUseJit: Option<bool>): (r: string)
    ensures jitUseJit == Some(false) ==> r == "interpreted"
    ensures jitUseJit != Some(false) ==> r == engine
  {
    if jitUseJit.None? || jitUseJit.value then engine else "interpreted"
  }

  /** The shares of a summary row; the execute and total shares divide without a guard. */
  function Shares(row: SummaryRow, prepare: real, execute: real, total: real): (r: Result<(real, real, real)>)
    ensures r.Failure? <==> execute == 0.0 || total == 0.0
    ensures r.Success? && prepare == 0.0 ==> r.value.0 == 0.0
    ensures r.Success? && prepare != 0.0 ==> r.value.0 * prepare == row.prepare
  {
    var prepareShare := if prepare != 0.0 then row.prepare / prepare else 0.0;
    if execute == 0.0 then Failure("ZeroDivisionError")
    else
      var executeShare := row.execute / execute;
      if total == 0.0 then Failure("ZeroDivisionError")
      else Success((prepareShare, executeShare, (row.prepare + row.execute) / total))
  }

  /** Some row's shares divide by zero exactly when there is a row and a zero execute or total time. */
  lemma SharesFailIff(rows: seq<SummaryRow>, prepare: real, execute: real, total: real)
    ensures (exists i :: 0 <= i < |rows| && Shares(rows[i], prepare, execute, total).Failure?) <==> |rows| > 0 && (execute == 0.0 || total == 0.0)
  {
    if |rows| > 0 && (execute == 0.0 || total == 0.0) {
      assert Shares(rows[0], prepare, execute, total).Failure?;
    }
  }

  /** The summary rows of the buckets whose names `names` lists, in that order. */
  function SummaryOf(buckets: map<string, Bucket>, names: seq<string>): seq<SummaryRow>
    decreases |names|
  {
    if names == [] then []
    else
      var rows := SummaryOf(buckets, names[..|names| - 1]);
      var k := names[|names| - 1];
      if k in buckets then rows + [SummaryRow(k, buckets[k].prepare, buckets[k].execute)] else rows
  }

  /** `names` lists each name of `keys` once, in ascending order. */
  ghost predicate ListsInOrder(keys: set<string>, names: seq<string>)
  {
    (forall i :: 0 <= i < |names| ==> names[i] in keys) &&
    (forall x :: x in keys ==> x in names) &&
    (forall i, j :: 0 <= i < j < |names| ==> HistogramUtils.LexLess(names[i], names[j]))
  }

  /** The sort of `summary.sort(key=lambda x: x['name'])`: every key set listed once, ascending. */
  ghost predicate SortsNames(sortedNames: set<string> -> seq<string>)
  {
    forall keys: set<string> :: ListsInOrder(keys, sortedNames(keys))
  }

  /** With every listed name a bucket, the summary has one row per name, in the order listed. */
  lemma {:induction false} SummaryFollowsNames(buckets: map<string, Bucket>, names: seq<string>)
    requires forall i :: 0 <= i < |names| ==> names[i] in buckets
    ensures |SummaryOf(buckets, names)| == |names|
    ensures forall i :: 0 <= i < |names| ==>
      SummaryOf(buckets, names)[i] == SummaryRow(names[i], buckets[names[i]].prepare, buckets[names[i]].execute)
    decreases |names|
  {
    if names != [] {
      SummaryFollowsNames(buckets, names[..|names| - 1]);
    }
  }

  /** The sorted summary holds every bucket once, with its times, in ascending order of names. */
  lemma SummaryIsSorted(buckets: map<string, Bucket>, sortedNames: set<string> -> seq<string>)
    requires SortsNames(sortedNames)
    ensures var rows := SummaryOf(buckets, sortedNames(buckets.Keys));
      (forall i :: 0 <= i < |rows| ==>
         (rows[i].name in buckets &&
          rows[i].prepare == buckets[rows[i].name].prepare && rows[i].execute == buckets[rows[i].name].execute)) &&
      (forall k :: k in buckets ==> exists i :: 0 <= i < |rows| && rows[i].name == k) &&
      (forall i, j :: 0 <= i < j < |rows| ==> HistogramUtils.LexLess(rows[i].name, rows[j].name))
  {
    var names := sortedNames(buckets.Keys);
    assert ListsInOrder(buckets.Keys, names);
    SummaryFollowsNames(buckets, names);
    var rows := SummaryOf(buckets, names);
    forall k | k in buckets
      ensures exists i :: 0 <= i < |rows| && rows[i].name == k
    {
      var i :| 0 <= i < |names| && names[i] == k;
      assert rows[i].name == k;
    }
  }

  /** What one experiment that was run contributes, or the error that stops the script. */
  function ExperimentEntry(x: Experiment, sortedNames: set<string> -> seq<string>): Result<Entry>
    requires SortsNames(sortedNames)
  {
    match Combination(x.results)
    case Failure(e) => Failure(e)
    case Success(c) =>
      var summary := SummaryOf(c.buckets, sortedNames(c.buckets.Keys));
      var (prepare, execute) := CalcSumOf(summary, false);
      var total := prepare + execute;
      if |summary| > 0 && (execute == 0.0 || total == 0.0) then Failure("ZeroDivisionError")
      else Success(Entry(c.pipeline, (prepare, execute, total), CalcSumOf(summary, true)))
  }

  /** The dictionary `d` after the given experiments, per query id and slot. */
  function Evaluation(xs: seq<Experiment>, sortedNames: set<string> -> seq<string>): Result<map<string, map<string, Entry>>>
    requires SortsNames(sortedNames)
    decreases |xs|
  {
    if xs == [] then Success(map[])
    else match Evaluation(xs[..|xs| - 1], sortedNames)
      case Failure(e) => Failure(e)
      case Success(d) =>
        var x := xs[|xs| - 1];
        if x.task != "run" then Success(d)
        else match ExperimentEntry(x, sortedNames)
          case Failure(e) => Failure(e)
          case Success(entry) =>
            var slots := if x.queryId in d then d[x.queryId] else map[];
            Success(d[x.queryId := slots[SlotId(x.engine, x.jitUseJit) := entry]])
  }

  /** An experiment whose task is not "run" changes nothing. */
  lemma NonRunSkipped(xs: seq<Experiment>, x: Experiment, sortedNames: set<string> -> seq<string>)
    requires SortsNames(sortedNames)
    requires x.task != "run"
    ensures Evaluation(xs + [x], sortedNames) == Evaluation(xs, sortedNames)
  {
    assert (xs + [x])[..|xs|] == xs;
  }

  predicate RunOf(xs: seq<Experiment>, q: string)
  {
    exists i :: 0 <= i < |xs| && xs[i].task == "run" && xs[i].queryId == q
  }

  /** The queries of `d` are exactly those of the experiments that were run. */
  lemma {:induction false} EvaluationQueries(xs: seq<Experiment>, sortedNames: set<string> -> seq<string>, q: string)
    requires SortsNames(sortedNames)
    requires Evaluation(xs, sortedNames).Success?
    ensures q in Evaluation(xs, sortedNames).value <==> RunOf(xs, q)
    decreases |xs|
  {
    if xs != [] {
      var init := xs[..|xs| - 1];
      var x := xs[|xs| - 1];
      assert Evaluation(init, sortedNames).Success?;
      EvaluationQueries(init, sortedNames, q);
      if RunOf(init, q) {
        var i :| 0 <= i < |init| && init[i].task == "run" && init[i].queryId == q;
        assert xs[i] == init[i];
      }
      if RunOf(xs, q) && !(x.task == "run" && x.queryId == q) {
        var i :| 0 <= i < |xs| && xs[i].task == "run" && xs[i].queryId == q;
        assert i < |init| && init[i] == xs[i];
      }
    }
  }

  /** A failure stops the loop: no later experiment changes the outcome. */
  lemma {:induction false} FailureStops(xs: seq<Experiment>, n: nat, sortedNames: set<string> -> seq<string>)
    requires SortsNames(sortedNames)
    requires n <= |xs| && Evaluation(xs[..n], sortedNames).Failure?
    ensures Evaluation(xs, sortedNames) == Evaluation(xs[..n], sortedNames)
    decreases |xs| - n
  {
    if n < |xs| {
      assert xs[..n + 1][..n] == xs[..n];
      FailureStops(xs, n + 1, sortedNames);
    } else {
      assert xs[..n] == xs;
    }
  }

  /** The main loop over the experiments of the result file. */
  method Evaluate(xs: seq<Experiment>, sortedNames: set<string> -> seq<string>) returns (r: Result<map<string, map<string, Entry>>>)
    requires SortsNames(sortedNames)
    ensures r == Evaluation(xs, sortedNames)
  {
    var d: map<string, map<string, Entry>> := map[];
    var i := 0;
    while i < |xs|
      invariant 0 <= i <= |xs|
      invariant Evaluation(xs[..i], sortedNames) == Success(d)
    {
      var x := xs[i];
      assert xs[..i + 1][..i] == xs[..i];
      i := i + 1;
      if x.task != "run" {
        continue;
      }
      var combined := CombineResults(x.results);
      if combined.Failure? {
        FailureStops(xs, i, sortedNames);
        return Failure(combined.error);
      }
      var summary := SummaryOf(combined.value.buckets, sortedNames(combined.value.buckets.Keys));
      var prepare, execute := CalcSum(summary, false);
      var total := prepare + execute;
      if |summary| > 0 && (execute == 0.0 || total == 0.0) {
        FailureStops(xs, i, sortedNames);
        return Failure("ZeroDivisionError");
      }
      var wrapperPrepare, wrapperExecute := CalcSum(summary, true);
      var slots := if x.queryId in d then d[x.queryId] else map[];
      d := d[x.queryId := slots[SlotId(x.engine, x.jitUseJit) := Entry(combined.value.pipeline, (prepare, execute, total), (wrapperPrepare, wrapperExecute))]];
    }
    assert xs[..i] == xs;
    r := Success(d);
  }
}
