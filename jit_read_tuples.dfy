/**
 * `JitReadTuples`, the first operator of every JIT chain: it hands out the slots of the runtime
 * tuple (input columns, literals, parameters and temporaries), fills the literal and parameter
 * slots before the query and resets the chunk position and the value-id slots before each chunk.
 *
 * `AllTypeVariant` and `JitTupleValue` equality are taken to be structural. The row-count
 * expression is represented by the value it evaluates to, the cast of a literal to a column's type
 * by `convert` (see `JitUtils.CastAllTypeVariantToType`), dictionary segments by their dictionaries
 * and the ordering of a column's values by `rank`.
 */
module JitReadTuplesOperator {
  import opened Wrappers
  import opened JitTypes
  import opened JitUtils
  import opened JitExpressions
  import opened JitValueIds

  datatype InputColumn = InputColumn(columnId: nat, dataType: DataType, tupleValue: JitTupleValue, useValueId: bool)

  datatype InputLiteral = InputLiteral(value: Variant, tupleValue: JitTupleValue, useValueId: bool)

  datatype InputParameter = InputParameter(parameterId: nat, tupleValue: JitTupleValue, value: Option<Variant>, useValueId: bool)

  datatype ValueIdPredicate = ValueIdPredicate(
    inputColumnIndex: nat,
    expressionType: JitExpressionType,
    inputLiteralIndex: Option<nat>,
    inputParameterIndex: Option<nat>)

  // --- Searching the registries ---

  /** `std::find_if`: the first position whose element satisfies p. */
  function FindFirst<T>(s: seq<T>, p: T -> bool): (r: Option<nat>)
    ensures r.Some? ==> r.value < |s| && p(s[r.value]) && forall i :: 0 <= i < r.value ==> !p(s[i])
    ensures r.None? ==> forall i :: 0 <= i < |s| ==> !p(s[i])
  {
    if |s| == 0 then None
    else if p(s[0]) then Some(0)
    else match FindFirst(s[1..], p)
      case None => None
      case Some(i) => Some(i + 1)
  }

  /** The backwards `std::find_if` of `add_value_id_predicate`: the last position whose element satisfies p. */
  function FindLast<T>(s: seq<T>, p: T -> bool): (r: Option<nat>)
    ensures r.Some? ==> r.value < |s| && p(s[r.value]) && forall i :: r.value < i < |s| ==> !p(s[i])
    ensures r.None? ==> forall i :: 0 <= i < |s| ==> !p(s[i])
  {
    if |s| == 0 then None
    else if p(s[|s| - 1]) then Some(|s| - 1)
    else FindLast(s[..|s| - 1], p)
  }

  /** `add_input_column` reuses an entry for the same column read in the same way. */
  function SameColumn(columnId: nat, useValueId: bool): InputColumn -> bool
  {
    (c: InputColumn) => c.columnId == columnId && c.useValueId == useValueId
  }

  /**
   * `add_literal_value` as written reuses an entry with an equal value whose slot holds the value
   * itself, whatever flag is requested.
   */
  function SameLiteralAsWritten(value: Variant): InputLiteral -> bool
  {
    (l: InputLiteral) => l.value == value && !l.useValueId
  }

  /**
   * The reuse rule the value-id machinery needs: only a request for the value itself may share
   * such an entry; a value-id literal always gets a slot of its own, which `before_chunk` fills
   * with the value id for its column.
   */
  function SameLiteral(value: Variant, useValueId: bool): InputLiteral -> bool
  {
    (l: InputLiteral) => !useValueId && l.value == value && !l.useValueId
  }

  function SameParameterAsWritten(parameterId: nat): InputParameter -> bool
  {
    (p: InputParameter) => p.parameterId == parameterId && !p.useValueId
  }

  function SameParameter(parameterId: nat, useValueId: bool): InputParameter -> bool
  {
    (p: InputParameter) => !useValueId && p.parameterId == parameterId && !p.useValueId
  }

  /** The entries `add_value_id_predicate` looks for: the given slot, read as a value id. */
  function ValueIdColumn(tv: JitTupleValue): InputColumn -> bool
  {
    (c: InputColumn) => c.tupleValue == tv && c.useValueId
  }

  function ValueIdLiteral(tv: JitTupleValue): InputLiteral -> bool
  {
    (l: InputLiteral) => l.tupleValue == tv && l.useValueId
  }

  function ValueIdParameter(tv: JitTupleValue): InputParameter -> bool
  {
    (p: InputParameter) => p.tupleValue == tv && p.useValueId
  }

  /**
   * `add_literal_value` as written, on a registry of literals with `next` slots in use: the tuple
   * value handed out and the new registry.
   */
  function AddLiteralAsWritten(literals: seq<InputLiteral>, next: nat, value: Variant, useValueId: bool): (JitTupleValue, seq<InputLiteral>)
  {
    match FindFirst(literals, SameLiteralAsWritten(value))
    case Some(i) => (literals[i].tupleValue, literals)
    case None =>
      var tv := JitTupleValue(if useValueId then DataTypeValueID else TypeOf(value), false, next);
      (tv, literals + [InputLiteral(value, tv, useValueId)])
  }

  /**
   * As written, a value-id request for a literal already registered by value gets that plain slot,
   * and `add_value_id_predicate` then finds no value-id literal for it.
   */
  lemma AsWrittenValueIdLiteralLost()
    ensures var literals := [InputLiteral(IntValue(5), JitTupleValue(Int, false, 0), false)];
      var (tv, after) := AddLiteralAsWritten(literals, 1, IntValue(5), true);
      tv == JitTupleValue(Int, false, 0) && after == literals && FindLast(after, ValueIdLiteral(tv)).None?
  {
    var literals := [InputLiteral(IntValue(5), JitTupleValue(Int, false, 0), false)];
    assert SameLiteralAsWritten(IntValue(5))(literals[0]);
  }

  /** `add_parameter_value` as written, on a registry of parameters with `next` slots in use. */
  function AddParameterAsWritten(parameters: seq<InputParameter>, next: nat, dataType: DataType, isNullable: bool,
                                 parameterId: nat, useValueId: bool): (JitTupleValue, seq<InputParameter>)
  {
    match FindFirst(parameters, SameParameterAsWritten(parameterId))
    case Some(i) => (parameters[i].tupleValue, parameters)
    case None =>
      var tv := JitTupleValue(if useValueId then DataTypeValueID else dataType, isNullable, next);
      (tv, parameters + [InputParameter(parameterId, tv, None, useValueId)])
  }

  /** The same for parameters: a value-id request for a parameter registered by value gets the plain slot. */
  lemma AsWrittenValueIdParameterLost()
    ensures var parameters := [InputParameter(7, JitTupleValue(Int, true, 0), None, false)];
      var (tv, after) := AddParameterAsWritten(parameters, 1, Int, true, 7, true);
      tv == JitTupleValue(Int, true, 0) && after == parameters && FindLast(after, ValueIdParameter(tv)).None?
  {
    var parameters := [InputParameter(7, JitTupleValue(Int, true, 0), None, false)];
    assert SameParameterAsWritten(7)(parameters[0]);
  }

  // --- Slot bookkeeping ---

  function ColumnSlots(cs: seq<InputColumn>): (s: seq<nat>)
    ensures |s| == |cs|
  {
    seq(|cs|, i requires 0 <= i < |cs| => cs[i].tupleValue.tupleIndex)
  }

  function LiteralSlots(ls: seq<InputLiteral>): (s: seq<nat>)
    ensures |s| == |ls|
  {
    seq(|ls|, i requires 0 <= i < |ls| => ls[i].tupleValue.tupleIndex)
  }

  function ParameterSlots(ps: seq<InputParameter>): (s: seq<nat>)
    ensures |s| == |ps|
  {
    seq(|ps|, i requires 0 <= i < |ps| => ps[i].tupleValue.tupleIndex)
  }

  predicate Distinct(s: seq<nat>)
  {
    forall i, j :: 0 <= i < |s| && 0 <= j < |s| && i != j ==> s[i] != s[j]
  }

  /** A slot number not yet handed out can be placed anywhere without creating a clash. */
  lemma FreshSlotKeepsDistinct(a: seq<nat>, b: seq<nat>, n: nat)
    requires Distinct(a + b)
    requires forall k :: k in a + b ==> k < n
    ensures Distinct(a + [n] + b)
    ensures forall k :: k in a + [n] + b ==> k < n + 1
  {
    var c := a + [n] + b;
    forall i, j | 0 <= i < |c| && 0 <= j < |c| && i != j
      ensures c[i] != c[j]
    {
      var i' := if i < |a| then i else i - 1;
      var j' := if j < |a| then j else j - 1;
      if i == |a| {
        assert c[j] == (a + b)[j'] && (a + b)[j'] in a + b;
      } else if j == |a| {
        assert c[i] == (a + b)[i'] && (a + b)[i'] in a + b;
      } else {
        assert c[i] == (a + b)[i'] && c[j] == (a + b)[j'];
      }
    }
    forall k | k in c
      ensures k < n + 1
    {
      if k != n {
        assert k in a + b;
      }
    }
  }

  /** Slots of a literal: a value-id literal holds a value id, any other one a value of its own type; neither is nullable. */
  predicate LiteralTyped(l: InputLiteral)
  {
    l.tupleValue.dataType == (if l.useValueId then DataTypeValueID else TypeOf(l.value)) && !l.tupleValue.isNullable
  }

  // --- Filling the runtime tuple before the query ---

  /** What `before_query` copies into one slot: a literal or a parameter value. */
  datatype Input = Input(tupleValue: JitTupleValue, value: Variant, useValueId: bool)

  function LiteralInputs(ls: seq<InputLiteral>): (xs: seq<Input>)
    ensures |xs| == |ls|
  {
    seq(|ls|, i requires 0 <= i < |ls| => Input(ls[i].tupleValue, ls[i].value, ls[i].useValueId))
  }

  predicate AllSet(ps: seq<InputParameter>)
  {
    forall i :: 0 <= i < |ps| ==> ps[i].value.Some?
  }

  function ParameterInputs(ps: seq<InputParameter>): (xs: seq<Input>)
    requires AllSet(ps)
    ensures |xs| == |ps|
  {
    seq(|ps|, i requires 0 <= i < |ps| => Input(ps[i].tupleValue, ps[i].value.value, ps[i].useValueId))
  }

  /** `std::vector::resize`: a prefix is kept and new slots are value-initialised. */
  function Resize(t: seq<Slot>, n: nat): (r: seq<Slot>)
    ensures |r| == n
    ensures forall i :: 0 <= i < n ==> r[i] == if i < |t| then t[i] else DefaultSlot
  {
    if |t| >= n then t[..n] else t + seq(n - |t|, _ => DefaultSlot)
  }

  /**
   * `set_value_from_input`: nothing happens for a slot of data type `Null`; otherwise the value must
   * hold the slot's data type (`boost::get` throws when it does not, in particular for NULL) and the
   * slot then reads back as that value, not NULL. No other slot changes.
   */
  function SetValueFromInput(tv: JitTupleValue, value: Variant, tuple: seq<Slot>): (r: Result<seq<Slot>>)
    requires tv.tupleIndex < |tuple|
    ensures tv.dataType == Null ==> r == Success(tuple)
    ensures tv.dataType != Null ==> (r.Success? <==> TypeOf(value) == tv.dataType)
    ensures r.Success? ==> |r.value| == |tuple| && forall i :: 0 <= i < |tuple| && i != tv.tupleIndex ==> r.value[i] == tuple[i]
    ensures r.Success? && tv.dataType != Null ==> Read(tv, r.value) == Slot(value, false)
  {
    if tv.dataType == Null then Success(tuple)
    else if TypeOf(value) != tv.dataType then Failure("boost::bad_get")
    else
      var isNull := if tv.isNullable then false else tuple[tv.tupleIndex].isNull;
      Success(tuple[tv.tupleIndex := Slot(value, isNull)])
  }

  predicate Fits(xs: seq<Input>, n: nat)
  {
    forall i :: 0 <= i < |xs| ==> xs[i].tupleValue.tupleIndex < n
  }

  /** The inputs copied one after the other; value-id inputs are skipped. */
  function FillInputs(xs: seq<Input>, tuple: seq<Slot>): (r: Result<seq<Slot>>)
    requires Fits(xs, |tuple|)
    ensures r.Success? ==> |r.value| == |tuple|
    decreases |xs|
  {
    if |xs| == 0 then Success(tuple)
    else match FillInputs(xs[..|xs| - 1], tuple)
      case Failure(e) => Failure(e)
      case Success(t) =>
        var x := xs[|xs| - 1];
        if x.useValueId then Success(t) else SetValueFromInput(x.tupleValue, x.value, t)
  }

  /** Whether some input copied by value owns slot k. */
  predicate CopiedTo(xs: seq<Input>, k: nat)
  {
    exists i :: 0 <= i < |xs| && !xs[i].useValueId && xs[i].tupleValue.dataType != Null && xs[i].tupleValue.tupleIndex == k
  }

  /** Only the slots of inputs copied by value change. */
  lemma {:induction false} FillKeepsOtherSlots(xs: seq<Input>, tuple: seq<Slot>, k: nat)
    requires Fits(xs, |tuple|) && FillInputs(xs, tuple).Success?
    requires k < |tuple| && !CopiedTo(xs, k)
    ensures FillInputs(xs, tuple).value[k] == tuple[k]
    decreases |xs|
  {
    if |xs| > 0 {
      var front := xs[..|xs| - 1];
      assert Fits(front, |tuple|);
      forall i | 0 <= i < |front|
        ensures !(!front[i].useValueId && front[i].tupleValue.dataType != Null && front[i].tupleValue.tupleIndex == k)
      {
        assert xs[i] == front[i];
      }
      FillKeepsOtherSlots(front, tuple, k);
      assert !(!xs[|xs| - 1].useValueId && xs[|xs| - 1].tupleValue.dataType != Null && xs[|xs| - 1].tupleValue.tupleIndex == k);
    }
  }

  predicate DistinctSlots(xs: seq<Input>)
  {
    forall i, j :: 0 <= i < |xs| && 0 <= j < |xs| && i != j ==> xs[i].tupleValue.tupleIndex != xs[j].tupleValue.tupleIndex
  }

  /** When the inputs have distinct slots, every input copied by value ends up in its slot. */
  lemma {:induction false} FillWritesEveryInput(xs: seq<Input>, tuple: seq<Slot>, i: nat)
    requires Fits(xs, |tuple|) && DistinctSlots(xs) && FillInputs(xs, tuple).Success?
    requires i < |xs| && !xs[i].useValueId && xs[i].tupleValue.dataType != Null
    ensures Read(xs[i].tupleValue, FillInputs(xs, tuple).value) == Slot(xs[i].value, false)
    decreases |xs|
  {
    var front := xs[..|xs| - 1];
    assert Fits(front, |tuple|);
    var t := FillInputs(front, tuple).value;
    if i < |xs| - 1 {
      assert DistinctSlots(front) by {
        forall a, b | 0 <= a < |front| && 0 <= b < |front| && a != b
          ensures front[a].tupleValue.tupleIndex != front[b].tupleValue.tupleIndex
        {
          assert front[a] == xs[a] && front[b] == xs[b];
        }
      }
      assert front[i] == xs[i];
      FillWritesEveryInput(front, tuple, i);
      assert xs[|xs| - 1].tupleValue.tupleIndex != xs[i].tupleValue.tupleIndex;
    }
  }

  /** Literals always copy: each holds a value of its own slot's type. */
  lemma {:induction false} LiteralsAlwaysCopy(ls: seq<InputLiteral>, tuple: seq<Slot>)
    requires forall i :: 0 <= i < |ls| ==> LiteralTyped(ls[i])
    requires Fits(LiteralInputs(ls), |tuple|)
    ensures FillInputs(LiteralInputs(ls), tuple).Success?
    decreases |ls|
  {
    if |ls| > 0 {
      var front := ls[..|ls| - 1];
      assert LiteralInputs(front) == LiteralInputs(ls)[..|ls| - 1];
      LiteralsAlwaysCopy(front, tuple);
    }
  }

  /** A failure while copying an earlier input is the result of copying them all. */
  lemma {:induction false} FillFailurePersists(xs: seq<Input>, k: nat, tuple: seq<Slot>)
    requires Fits(xs, |tuple|) && k <= |xs|
    requires Fits(xs[..k], |tuple|) && FillInputs(xs[..k], tuple).Failure?
    ensures FillInputs(xs, tuple).Failure?
    decreases |xs| - k
  {
    if k == |xs| {
      assert xs[..k] == xs;
    } else {
      var front := xs[..|xs| - 1];
      assert front[..k] == xs[..k];
      FillFailurePersists(front, k, tuple);
    }
  }

  // --- The operator ---

  class JitReadTuples {
    const hasValidate: bool
    /** The value of the row-count (LIMIT) expression, when there is one. */
    const rowCount: Option<int>
    var numTupleValues: nat
    var inputColumns: seq<InputColumn>
    var inputLiterals: seq<InputLiteral>
    var inputParameters: seq<InputParameter>
    var valueIdPredicates: seq<ValueIdPredicate>

    /** Every slot handed to an input, in registry order. */
    function Slots(): seq<nat>
      reads this
    {
      ColumnSlots(inputColumns) + LiteralSlots(inputLiterals) + ParameterSlots(inputParameters)
    }

    /** A value-id predicate points at a value-id column and at a literal or, failing that, a parameter. */
    predicate Refers(p: ValueIdPredicate)
      reads this
    {
      && p.inputColumnIndex < |inputColumns|
      && inputColumns[p.inputColumnIndex].useValueId
      && match p.inputLiteralIndex
         case Some(i) => i < |inputLiterals|
         case None => p.inputParameterIndex.Some? && p.inputParameterIndex.value < |inputParameters|
    }

    /**
     * The registries are consistent: the inputs own distinct slots below the slot counter (the
     * remaining ones are temporaries), literals are typed by their values and every value-id
     * predicate refers to existing entries.
     */
    predicate Valid()
      reads this
    {
      && (forall k :: k in Slots() ==> k < numTupleValues)
      && Distinct(Slots())
      && (forall i :: 0 <= i < |inputLiterals| ==> LiteralTyped(inputLiterals[i]))
      && (forall i :: 0 <= i < |valueIdPredicates| ==> Refers(valueIdPredicates[i]))
    }

    constructor (hasValidate: bool, rowCount: Option<int>)
      ensures Valid()
      ensures this.hasValidate == hasValidate && this.rowCount == rowCount
      ensures numTupleValues == 0 && inputColumns == [] && inputLiterals == [] && inputParameters == [] && valueIdPredicates == []
    {
      this.hasValidate := hasValidate;
      this.rowCount := rowCount;
      numTupleValues := 0;
      inputColumns := [];
      inputLiterals := [];
      inputParameters := [];
      valueIdPredicates := [];
    }

    /** `find_input_column`: the column of the first entry with this tuple value. */
    function FindInputColumn(tv: JitTupleValue): (r: Option<nat>)
      reads this
      ensures r.None? <==> forall i :: 0 <= i < |inputColumns| ==> inputColumns[i].tupleValue != tv
      ensures r.Some? ==> exists i :: 0 <= i < |inputColumns| && inputColumns[i].tupleValue == tv && inputColumns[i].columnId == r.value
    {
      match FindFirst(inputColumns, (c: InputColumn) => c.tupleValue == tv)
      case Some(i) => Some(inputColumns[i].columnId)
      case None => None
    }

    /** `find_literal_value`: the value of the first literal in the same slot; only the slot number is compared. */
    function FindLiteralValue(tv: JitTupleValue): (r: Option<Variant>)
      reads this
      ensures r.None? <==> forall i :: 0 <= i < |inputLiterals| ==> inputLiterals[i].tupleValue.tupleIndex != tv.tupleIndex
      ensures r.Some? ==> exists i :: 0 <= i < |inputLiterals| && inputLiterals[i].tupleValue.tupleIndex == tv.tupleIndex && inputLiterals[i].value == r.value
    {
      match FindFirst(inputLiterals, (l: InputLiteral) => l.tupleValue.tupleIndex == tv.tupleIndex)
      case Some(i) => Some(inputLiterals[i].value)
      case None => None
    }

    /** Two column entries in the same slot are the same entry. */
    lemma ColumnSlotsUnique(i: nat, j: nat)
      requires Valid() && i < |inputColumns| && j < |inputColumns|
      requires inputColumns[i].tupleValue.tupleIndex == inputColumns[j].tupleValue.tupleIndex
      ensures i == j
    {
      assert Slots()[i] == inputColumns[i].tupleValue.tupleIndex;
      assert Slots()[j] == inputColumns[j].tupleValue.tupleIndex;
    }

    lemma LiteralSlotsUnique(i: nat, j: nat)
      requires Valid() && i < |inputLiterals| && j < |inputLiterals|
      requires inputLiterals[i].tupleValue.tupleIndex == inputLiterals[j].tupleValue.tupleIndex
      ensures i == j
    {
      var c := |inputColumns|;
      assert Slots()[c + i] == inputLiterals[i].tupleValue.tupleIndex;
      assert Slots()[c + j] == inputLiterals[j].tupleValue.tupleIndex;
    }

    /**
     * `add_input_column`: a column already read in the same way keeps its tuple value and nothing
     * changes; otherwise the next slot is taken (typed as a value id when the column is read by
     * value id) and the column is registered. Either way `find_input_column` then finds the column.
     */
    method AddInputColumn(dataType: DataType, isNullable: bool, columnId: nat, useValueId: bool) returns (tv: JitTupleValue)
      requires Valid()
      modifies this`numTupleValues, this`inputColumns
      ensures Valid()
      ensures var found := FindFirst(old(inputColumns), SameColumn(columnId, useValueId));
        if found.Some? then
          tv == old(inputColumns)[found.value].tupleValue
          && numTupleValues == old(numTupleValues) && inputColumns == old(inputColumns)
        else
          tv == JitTupleValue(if useValueId then DataTypeValueID else dataType, isNullable, old(numTupleValues))
          && numTupleValues == old(numTupleValues) + 1
          && inputColumns == old(inputColumns) + [InputColumn(columnId, dataType, tv, useValueId)]
      ensures FindInputColumn(tv) == Some(columnId)
    {
      var found := FindFirst(inputColumns, SameColumn(columnId, useValueId));
      if found.Some? {
        tv := inputColumns[found.value].tupleValue;
        FoundColumnIsFirst(found.value, tv);
        return;
      }
      tv := JitTupleValue(if useValueId then DataTypeValueID else dataType, isNullable, numTupleValues);
      var cs, ls, ps := ColumnSlots(inputColumns), LiteralSlots(inputLiterals), ParameterSlots(inputParameters);
      assert cs + ls + ps == cs + (ls + ps);
      FreshSlotKeepsDistinct(cs, ls + ps, numTupleValues);
      assert ColumnSlots(inputColumns + [InputColumn(columnId, dataType, tv, useValueId)]) == cs + [numTupleValues];
      assert cs + [numTupleValues] + ls + ps == cs + [numTupleValues] + (ls + ps);
      forall i | 0 <= i < |inputColumns|
        ensures inputColumns[i].tupleValue != tv
      {
        assert Slots()[i] == inputColumns[i].tupleValue.tupleIndex;
        assert Slots()[i] in Slots();
      }
      inputColumns := inputColumns + [InputColumn(columnId, dataType, tv, useValueId)];
      numTupleValues := numTupleValues + 1;
      FoundColumnIsFirst(|inputColumns| - 1, tv);
    }

    lemma FoundColumnIsFirst(i: nat, tv: JitTupleValue)
      requires Valid() && i < |inputColumns| && inputColumns[i].tupleValue == tv
      ensures FindInputColumn(tv) == Some(inputColumns[i].columnId)
    {
      var j := FindFirst(inputColumns, (c: InputColumn) => c.tupleValue == tv).value;
      ColumnSlotsUnique(i, j);
    }

    /**
     * `add_literal_value` with the reuse rule of `SameLiteral`: a plain request for a value already
     * held by a plain literal gets that slot; otherwise the next slot is taken, typed by the value
     * (or as a value id) and not nullable. A value-id request therefore always gets a value-id entry,
     * which `add_value_id_predicate` finds, and the slot reads back the requested value.
     */
    method AddLiteralValue(value: Variant, useValueId: bool) returns (tv: JitTupleValue)
      requires Valid()
      modifies this`numTupleValues, this`inputLiterals
      ensures Valid()
      ensures var found := FindFirst(old(inputLiterals), SameLiteral(value, useValueId));
        if found.Some? then
          tv == old(inputLiterals)[found.value].tupleValue
          && numTupleValues == old(numTupleValues) && inputLiterals == old(inputLiterals)
        else
          tv == JitTupleValue(if useValueId then DataTypeValueID else TypeOf(value), false, old(numTupleValues))
          && numTupleValues == old(numTupleValues) + 1
          && inputLiterals == old(inputLiterals) + [InputLiteral(value, tv, useValueId)]
      ensures useValueId ==> FindLast(inputLiterals, ValueIdLiteral(tv)) == Some(|inputLiterals| - 1)
      ensures FindLiteralValue(tv) == Some(value)
    {
      var found := FindFirst(inputLiterals, SameLiteral(value, useValueId));
      if found.Some? {
        tv := inputLiterals[found.value].tupleValue;
        assert SameLiteral(value, useValueId)(inputLiterals[found.value]);
        FoundLiteralIsFirst(found.value, tv);
        return;
      }
      tv := JitTupleValue(if useValueId then DataTypeValueID else TypeOf(value), false, numTupleValues);
      var cs, ls, ps := ColumnSlots(inputColumns), LiteralSlots(inputLiterals), ParameterSlots(inputParameters);
      FreshSlotKeepsDistinct(cs + ls, ps, numTupleValues);
      assert LiteralSlots(inputLiterals + [InputLiteral(value, tv, useValueId)]) == ls + [numTupleValues];
      assert cs + (ls + [numTupleValues]) + ps == cs + ls + [numTupleValues] + ps;
      forall i | 0 <= i < |inputLiterals|
        ensures inputLiterals[i].tupleValue.tupleIndex != tv.tupleIndex
      {
        assert Slots()[|cs| + i] == inputLiterals[i].tupleValue.tupleIndex;
        assert Slots()[|cs| + i] in Slots();
      }
      inputLiterals := inputLiterals + [InputLiteral(value, tv, useValueId)];
      numTupleValues := numTupleValues + 1;
      FoundLiteralIsFirst(|inputLiterals| - 1, tv);
    }

    lemma FoundLiteralIsFirst(i: nat, tv: JitTupleValue)
      requires Valid() && i < |inputLiterals| && inputLiterals[i].tupleValue == tv
      ensures FindLiteralValue(tv) == Some(inputLiterals[i].value)
    {
      var j := FindFirst(inputLiterals, (l: InputLiteral) => l.tupleValue.tupleIndex == tv.tupleIndex).value;
      LiteralSlotsUnique(i, j);
    }

    /**
     * `add_parameter_value` with the reuse rule of `SameParameter`: the parameter's value is not
     * known yet; a value-id request always gets a value-id entry of its own.
     */
    method AddParameterValue(dataType: DataType, isNullable: bool, parameterId: nat, useValueId: bool) returns (tv: JitTupleValue)
      requires Valid()
      modifies this`numTupleValues, this`inputParameters
      ensures Valid()
      ensures var found := FindFirst(old(inputParameters), SameParameter(parameterId, useValueId));
        if found.Some? then
          tv == old(inputParameters)[found.value].tupleValue
          && numTupleValues == old(numTupleValues) && inputParameters == old(inputParameters)
        else
          tv == JitTupleValue(if useValueId then DataTypeValueID else dataType, isNullable, old(numTupleValues))
          && numTupleValues == old(numTupleValues) + 1
          && inputParameters == old(inputParameters) + [InputParameter(parameterId, tv, None, useValueId)]
      ensures useValueId ==> FindLast(inputParameters, ValueIdParameter(tv)) == Some(|inputParameters| - 1)
    {
      var found := FindFirst(inputParameters, SameParameter(parameterId, useValueId));
      if found.Some? {
        tv := inputParameters[found.value].tupleValue;
        return;
      }
      tv := JitTupleValue(if useValueId then DataTypeValueID else dataType, isNullable, numTupleValues);
      var cs, ls, ps := ColumnSlots(inputColumns), LiteralSlots(inputLiterals), ParameterSlots(inputParameters);
      FreshSlotKeepsDistinct(cs + ls + ps, [], numTupleValues);
      assert ParameterSlots(inputParameters + [InputParameter(parameterId, tv, None, useValueId)]) == ps + [numTupleValues];
      assert cs + ls + (ps + [numTupleValues]) == cs + ls + ps + [numTupleValues] + [];
      assert cs + ls + ps + [] == cs + ls + ps;
      inputParameters := inputParameters + [InputParameter(parameterId, tv, None, useValueId)];
      numTupleValues := numTupleValues + 1;
    }

    /** `add_temporary_value`: the next slot, which no input owns. */
    method AddTemporaryValue() returns (index: nat)
      requires Valid()
      modifies this`numTupleValues
      ensures Valid()
      ensures index == old(numTupleValues) && numTupleValues == old(numTupleValues) + 1
      ensures index !in Slots()
    {
      index := numTupleValues;
      numTupleValues := numTupleValues + 1;
    }

    /** `set_parameters`: each parameter whose id is in the map takes its value; all others stay as they were. */
    method SetParameters(parameters: map<nat, Variant>)
      requires Valid()
      modifies this`inputParameters
      ensures Valid()
      ensures |inputParameters| == |old(inputParameters)|
      ensures forall i :: 0 <= i < |inputParameters| ==>
        inputParameters[i] == (var p := old(inputParameters)[i];
          if p.parameterId in parameters then p.(value := Some(parameters[p.parameterId])) else p)
    {
      ghost var before := inputParameters;
      var i := 0;
      while i < |inputParameters|
        invariant 0 <= i <= |inputParameters| == |before|
        invariant forall j :: 0 <= j < i ==>
          inputParameters[j] == (if before[j].parameterId in parameters then before[j].(value := Some(parameters[before[j].parameterId])) else before[j])
        invariant forall j :: i <= j < |before| ==> inputParameters[j] == before[j]
        invariant ParameterSlots(inputParameters) == ParameterSlots(before)
      {
        var p := inputParameters[i];
        if p.parameterId in parameters {
          inputParameters := inputParameters[i := p.(value := Some(parameters[p.parameterId]))];
        }
        i := i + 1;
      }
    }
    // --- Value-id predicates ---

    /** Whether the column of a binary expression is its right operand (`swap`). */
    function Swapped(e: JitExpression): bool
      reads this
      requires e.BinaryNode?
    {
      FindLast(inputColumns, ValueIdColumn(e.left.result)).None?
    }

    /**
     * The value-id predicate `add_value_id_predicate` records for a binary expression: the last
     * value-id column in the column operand's slot, the last value-id literal in the other
     * operand's slot or else the last such parameter, and the comparison read with the column on
     * the left (`StoredType`). None when there is no such column, or neither a literal nor a
     * parameter. Corrected: with the column on the right the comparison is read through its
     * converse, where the code as written applies `swap_expression_type`, its negation
     * (`AsWrittenSwappedComparisonWrong`).
     */
    function PredicateFor(e: JitExpression): (r: Option<ValueIdPredicate>)
      reads this
      requires e.BinaryNode?
      ensures r.Some? ==> Refers(r.value)
      ensures r.Some? ==> r.value.expressionType == StoredType(e.op, Swapped(e))
      ensures r.Some? ==> inputColumns[r.value.inputColumnIndex].tupleValue == if Swapped(e) then e.right.result else e.left.result
      ensures r.Some? && r.value.inputLiteralIndex.Some? ==>
        ValueIdLiteral(if Swapped(e) then e.left.result else e.right.result)(inputLiterals[r.value.inputLiteralIndex.value])
      ensures r.Some? && r.value.inputLiteralIndex.None? ==>
        ValueIdParameter(if Swapped(e) then e.left.result else e.right.result)(inputParameters[r.value.inputParameterIndex.value])
      ensures r.None? <==>
        (FindLast(inputColumns, ValueIdColumn(if Swapped(e) then e.right.result else e.left.result)).None?
         || (FindLast(inputLiterals, ValueIdLiteral(if Swapped(e) then e.left.result else e.right.result)).None?
             && FindLast(inputParameters, ValueIdParameter(if Swapped(e) then e.left.result else e.right.result)).None?))
    {
      var swap := Swapped(e);
      var column := FindLast(inputColumns, ValueIdColumn(if swap then e.right.result else e.left.result));
      var other := if swap then e.left.result else e.right.result;
      var literal := FindLast(inputLiterals, ValueIdLiteral(other));
      var parameter := if literal.Some? then None else FindLast(inputParameters, ValueIdParameter(other));
      if column.None? || (literal.None? && parameter.None?) then None
      else Some(ValueIdPredicate(column.value, StoredType(e.op, swap), literal, parameter))
    }

    /**
     * `add_value_id_predicate` for a binary comparison between a value-id column and a value-id
     * literal or parameter: the predicate is recorded and the expression's comparison is adjusted
     * (`RewrittenType`) from the corrected stored comparison, its operands staying where they
     * are. `ValueIdPredicateSound` states that
     * the adjusted comparison on value ids agrees with the original one on values.
     */
    method AddValueIdPredicate(e: JitExpression) returns (rewritten: JitExpression)
      requires Valid()
      requires e.BinaryNode? && IsBinary(e.op)
      requires PredicateFor(e).Some?
      modifies this`valueIdPredicates
      ensures Valid()
      ensures valueIdPredicates == old(valueIdPredicates) + [old(PredicateFor(e)).value]
      ensures rewritten == BinaryNode(e.left, RewrittenType(e.op, old(Swapped(e))), e.right, e.result)
    {
      var recorded := PredicateFor(e).value;
      rewritten := BinaryNode(e.left, RewrittenType(e.op, Swapped(e)), e.right, e.result);
      valueIdPredicates := valueIdPredicates + [recorded];
    }

    // --- Before the query ---

    /** Every literal and then every parameter, as `before_query` copies them. */
    function Inputs(): (xs: seq<Input>)
      reads this
      requires AllSet(inputParameters)
      ensures |xs| == |inputLiterals| + |inputParameters|
    {
      LiteralInputs(inputLiterals) + ParameterInputs(inputParameters)
    }

    /** Input m owns the slot listed for it after the columns. */
    lemma InputSlot(m: nat)
      requires AllSet(inputParameters) && m < |inputLiterals| + |inputParameters|
      ensures |inputColumns| + m < |Slots()|
      ensures Inputs()[m].tupleValue.tupleIndex == Slots()[|inputColumns| + m]
    {
      var cs, ls, ps := ColumnSlots(inputColumns), LiteralSlots(inputLiterals), ParameterSlots(inputParameters);
      assert Slots() == cs + ls + ps;
      if m < |inputLiterals| {
        assert Slots()[|cs| + m] == ls[m];
      } else {
        assert Slots()[|cs| + m] == ps[m - |ls|];
      }
    }

    lemma InputsFitAndAreDistinct()
      requires Valid() && AllSet(inputParameters)
      ensures Fits(Inputs(), numTupleValues)
      ensures DistinctSlots(Inputs())
    {
      var xs := Inputs();
      forall m | 0 <= m < |xs|
        ensures xs[m].tupleValue.tupleIndex < numTupleValues
      {
        InputSlot(m);
        assert Slots()[|inputColumns| + m] in Slots();
      }
      forall a, b | 0 <= a < |xs| && 0 <= b < |xs| && a != b
        ensures xs[a].tupleValue.tupleIndex != xs[b].tupleValue.tupleIndex
      {
        InputSlot(a);
        InputSlot(b);
      }
    }

    /** The tuple `before_query` builds from the previous one: resized to the slot count, then every input copied. */
    function QueryTuple(tuple: seq<Slot>): (r: Result<seq<Slot>>)
      reads this
      requires Valid() && AllSet(inputParameters)
      ensures Fits(Inputs(), numTupleValues)
      ensures r.Success? ==> |r.value| == numTupleValues
    {
      InputsFitAndAreDistinct();
      FillInputs(Inputs(), Resize(tuple, numTupleValues))
    }

    /** After `before_query` every literal and parameter copied by value reads back as its value. */
    lemma QueryTupleHoldsInputs(tuple: seq<Slot>, m: nat)
      requires Valid() && AllSet(inputParameters) && QueryTuple(tuple).Success?
      requires m < |inputLiterals| + |inputParameters|
      requires !Inputs()[m].useValueId && Inputs()[m].tupleValue.dataType != Null
      ensures Read(Inputs()[m].tupleValue, QueryTuple(tuple).value) == Slot(Inputs()[m].value, false)
    {
      InputsFitAndAreDistinct();
      FillWritesEveryInput(Inputs(), Resize(tuple, numTupleValues), m);
    }

    /** Every other slot keeps its old content, or is value-initialised when the tuple grew. */
    lemma QueryTupleKeepsOtherSlots(tuple: seq<Slot>, k: nat)
      requires Valid() && AllSet(inputParameters) && QueryTuple(tuple).Success?
      requires k < numTupleValues && !CopiedTo(Inputs(), k)
      ensures QueryTuple(tuple).value[k] == if k < |tuple| then tuple[k] else DefaultSlot
    {
      InputsFitAndAreDistinct();
      FillKeepsOtherSlots(Inputs(), Resize(tuple, numTupleValues), k);
    }

    /**
     * `before_query`: the runtime tuple is resized to the slot count, the limit is taken from the
     * row-count expression when there is one, and the literals and then the parameters not read
     * by value id are copied into their slots. Every parameter must have been given a value.
     */
    method BeforeQuery(context: JitRuntimeContext) returns (r: Result<()>)
      requires Valid() && AllSet(inputParameters)
      modifies context`tuple, context`limitRows
      ensures context.limitRows == if rowCount.Some? then rowCount.value else old(context.limitRows)
      ensures r.Success? <==> QueryTuple(old(context.tuple)).Success?
      ensures r.Success? ==> context.tuple == QueryTuple(old(context.tuple)).value
    {
      InputsFitAndAreDistinct();
      context.tuple := Resize(context.tuple, numTupleValues);
      if rowCount.Some? {
        context.limitRows := rowCount.value;
      }
      r := CopyInputs(context, Inputs());
    }

    /** The copy loops of `before_query`, over the literals and then the parameters. */
    static method CopyInputs(context: JitRuntimeContext, xs: seq<Input>) returns (r: Result<()>)
      requires Fits(xs, |context.tuple|)
      modifies context`tuple
      ensures r.Success? <==> FillInputs(xs, old(context.tuple)).Success?
      ensures r.Success? ==> context.tuple == FillInputs(xs, old(context.tuple)).value
    {
      ghost var start := context.tuple;
      var i := 0;
      while i < |xs|
        invariant 0 <= i <= |xs|
        invariant Fits(xs[..i], |start|)
        invariant FillInputs(xs[..i], start) == Success(context.tuple)
      {
        var x := xs[i];
        assert xs[..i + 1][..i] == xs[..i];
        if !x.useValueId {
          var s := SetValueFromInput(x.tupleValue, x.value, context.tuple);
          if s.Failure? {
            FillFailurePersists(xs, i + 1, start);
            return Failure(s.error);
          }
          context.tuple := s.value;
        }
        i := i + 1;
      }
      assert xs[..i] == xs;
      return Success(());
    }

    // --- Before each chunk ---

    /** The literal or parameter of a value-id predicate has a value. */
    predicate HasOperand(p: ValueIdPredicate)
      reads this
      requires Refers(p)
    {
      p.inputLiteralIndex.Some? || inputParameters[p.inputParameterIndex.value].value.Some?
    }

    /** The value a value-id predicate searches for and the slot its value id goes to. */
    function Operand(p: ValueIdPredicate): (r: (Variant, nat))
      reads this
      requires Valid() && Refers(p) && HasOperand(p)
      ensures r.1 < numTupleValues
    {
      OperandSlotBelow(p);
      match p.inputLiteralIndex
      case Some(i) => (inputLiterals[i].value, inputLiterals[i].tupleValue.tupleIndex)
      case None =>
        var q := inputParameters[p.inputParameterIndex.value];
        (q.value.value, q.tupleValue.tupleIndex)
    }

    lemma OperandSlotBelow(p: ValueIdPredicate)
      requires Valid() && Refers(p) && HasOperand(p)
      ensures p.inputLiteralIndex.Some? ==> inputLiterals[p.inputLiteralIndex.value].tupleValue.tupleIndex < numTupleValues
      ensures p.inputLiteralIndex.None? ==> inputParameters[p.inputParameterIndex.value].tupleValue.tupleIndex < numTupleValues
    {
      var cs, ls, ps := ColumnSlots(inputColumns), LiteralSlots(inputLiterals), ParameterSlots(inputParameters);
      assert Slots() == cs + ls + ps;
      match p.inputLiteralIndex
      case Some(i) =>
        assert Slots()[|cs| + i] == ls[i] && Slots()[|cs| + i] in Slots();
      case None =>
        var j := p.inputParameterIndex.value;
        assert Slots()[|cs| + |ls| + j] == ps[j] && Slots()[|cs| + |ls| + j] in Slots();
    }

    /** A value-id predicate can be evaluated for a chunk: its column has a dictionary and its operand a value. */
    predicate Ready(p: ValueIdPredicate, dictionaries: map<nat, seq<int>>)
      reads this
    {
      Refers(p) && HasOperand(p) && inputColumns[p.inputColumnIndex].columnId in dictionaries
    }

    /**
     * One iteration of the value-id loop of `before_chunk`: the operand is cast to the column's data
     * type and looked up in the column's dictionary (`ValueIdFor`), and the id is written into the
     * operand's slot, whose null flag stays. A failing cast or lookup is the result.
     */
    function ValueIdStep(p: ValueIdPredicate, tuple: seq<Slot>, dictionaries: map<nat, seq<int>>,
                         rank: Variant -> int, convert: (Variant, DataType) -> Variant): (r: Result<seq<Slot>>)
      reads this
      requires Valid() && Ready(p, dictionaries) && |tuple| == numTupleValues
      ensures r.Success? ==> |r.value| == |tuple|
      ensures r.Success? ==> forall k :: 0 <= k < |tuple| && k != Operand(p).1 ==> r.value[k] == tuple[k]
      ensures var column := inputColumns[p.inputColumnIndex];
        var cast := CastAllTypeVariantToType(Operand(p).0, column.dataType, convert);
        (r.Success? <==> cast.Success? && ValueIdFor(p.expressionType, dictionaries[column.columnId], rank(cast.value)).Success?)
        && (r.Success? ==>
              r.value[Operand(p).1].value == IntValue(ValueIdFor(p.expressionType, dictionaries[column.columnId], rank(cast.value)).value))
    {
      OperandSlotBelow(p);
      var column := inputColumns[p.inputColumnIndex];
      var (value, index) := Operand(p);
      var cast := CastAllTypeVariantToType(value, column.dataType, convert);
      if cast.Failure? then Failure(cast.error)
      else
        var id := ValueIdFor(p.expressionType, dictionaries[column.columnId], rank(cast.value));
        if id.Failure? then Failure(id.error)
        else Success(tuple[index := Slot(IntValue(id.value), tuple[index].isNull)])
    }

    predicate AllReady(ps: seq<ValueIdPredicate>, dictionaries: map<nat, seq<int>>)
      reads this
    {
      forall i :: 0 <= i < |ps| ==> Ready(ps[i], dictionaries)
    }

    /** The value-id predicates processed one after the other, stopping at the first failure. */
    function ChunkTuple(ps: seq<ValueIdPredicate>, tuple: seq<Slot>, dictionaries: map<nat, seq<int>>,
                        rank: Variant -> int, convert: (Variant, DataType) -> Variant): (r: Result<seq<Slot>>)
      reads this
      requires Valid() && AllReady(ps, dictionaries) && |tuple| == numTupleValues
      ensures r.Success? ==> |r.value| == |tuple|
      decreases |ps|
    {
      if |ps| == 0 then Success(tuple)
      else
        assert AllReady(ps[..|ps| - 1], dictionaries);
        match ChunkTuple(ps[..|ps| - 1], tuple, dictionaries, rank, convert)
        case Failure(e) => Failure(e)
        case Success(t) => ValueIdStep(ps[|ps| - 1], t, dictionaries, rank, convert)
    }

    /** The value-id loop changes only the operand slots of value-id predicates. */
    lemma {:induction false} ChunkTupleKeepsOtherSlots(ps: seq<ValueIdPredicate>, tuple: seq<Slot>, dictionaries: map<nat, seq<int>>,
                                                       rank: Variant -> int, convert: (Variant, DataType) -> Variant, k: nat)
      requires Valid() && AllReady(ps, dictionaries) && |tuple| == numTupleValues
      requires ChunkTuple(ps, tuple, dictionaries, rank, convert).Success?
      requires k < |tuple| && forall i :: 0 <= i < |ps| ==> Operand(ps[i]).1 != k
      ensures ChunkTuple(ps, tuple, dictionaries, rank, convert).value[k] == tuple[k]
      decreases |ps|
    {
      if |ps| > 0 {
        var front := ps[..|ps| - 1];
        assert AllReady(front, dictionaries);
        forall i | 0 <= i < |front|
          ensures Operand(front[i]).1 != k
        {
          assert front[i] == ps[i];
        }
        ChunkTupleKeepsOtherSlots(front, tuple, dictionaries, rank, convert, k);
      }
    }

    /**
     * `before_chunk`: the chunk position is reset to the start of chunk `chunkId` of `chunkSize`
     * rows and the value id of every value-id predicate is written into its operand's slot. Every
     * value-id column must be dictionary-encoded and every parameter operand set.
     */
    method BeforeChunk(context: JitRuntimeContext, chunkId: nat, chunkSize: nat, dictionaries: map<nat, seq<int>>,
                       rank: Variant -> int, convert: (Variant, DataType) -> Variant) returns (r: Result<()>)
      requires Valid() && AllReady(valueIdPredicates, dictionaries) && |context.tuple| == numTupleValues
      modifies context`chunkOffset, context`chunkSize, context`chunkId, context`tuple
      ensures context.chunkOffset == 0 && context.chunkSize == chunkSize && context.chunkId == chunkId
      ensures r.Success? <==> ChunkTuple(valueIdPredicates, old(context.tuple), dictionaries, rank, convert).Success?
      ensures r.Success? ==> context.tuple == ChunkTuple(valueIdPredicates, old(context.tuple), dictionaries, rank, convert).value
    {
      context.chunkOffset := 0;
      context.chunkSize := chunkSize;
      context.chunkId := chunkId;
      ghost var start := context.tuple;
      var i := 0;
      while i < |valueIdPredicates|
        invariant 0 <= i <= |valueIdPredicates|
        invariant |context.tuple| == numTupleValues
        invariant AllReady(valueIdPredicates[..i], dictionaries)
        invariant ChunkTuple(valueIdPredicates[..i], start, dictionaries, rank, convert) == Success(context.tuple)
        invariant context.chunkOffset == 0 && context.chunkSize == chunkSize && context.chunkId == chunkId
      {
        var p := valueIdPredicates[i];
        assert valueIdPredicates[..i + 1][..i] == valueIdPredicates[..i];
        assert AllReady(valueIdPredicates[..i + 1], dictionaries);
        var s := ValueIdStep(p, context.tuple, dictionaries, rank, convert);
        if s.Failure? {
          ChunkFailurePersists(valueIdPredicates, i + 1, start, dictionaries, rank, convert);
          return Failure(s.error);
        }
        context.tuple := s.value;
        i := i + 1;
      }
      assert valueIdPredicates[..i] == valueIdPredicates;
      return Success(());
    }

    lemma {:induction false} ChunkFailurePersists(ps: seq<ValueIdPredicate>, k: nat, tuple: seq<Slot>, dictionaries: map<nat, seq<int>>,
                                                  rank: Variant -> int, convert: (Variant, DataType) -> Variant)
      requires Valid() && AllReady(ps, dictionaries) && |tuple| == numTupleValues && k <= |ps|
      requires AllReady(ps[..k], dictionaries) && ChunkTuple(ps[..k], tuple, dictionaries, rank, convert).Failure?
      ensures ChunkTuple(ps, tuple, dictionaries, rank, convert).Failure?
      decreases |ps| - k
    {
      if k == |ps| {
        assert ps[..k] == ps;
      } else {
        var front := ps[..|ps| - 1];
        assert front[..k] == ps[..k];
        assert AllReady(front, dictionaries);
        ChunkFailurePersists(front, k, tuple, dictionaries, rank, convert);
      }
    }
  }
}
