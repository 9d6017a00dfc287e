/**
 * The `JitFilter` operator: passes a tuple on only when a boolean tuple value, or the value of a
 * boolean expression, is non-NULL and TRUE.
 */
module JitFilterOperator {
  import opened Wrappers
  import opened JitTypes
  import opened Decimal
  import opened JitExpressions

  /** A condition read from the tuple passes when it is non-NULL and TRUE. */
  function ConditionPasses(condition: JitTupleValue, tuple: seq<Slot>): (p: bool)
    requires condition.tupleIndex < |tuple|
    ensures p <==> Read(condition, tuple) == Slot(BoolValue(true), false)
  {
    !TupleIsNull(condition, tuple) && tuple[condition.tupleIndex].value == BoolValue(true)
  }

  /** An expression passes when its computed value is non-NULL and TRUE. */
  function ExpressionPasses(e: JitExpression, tuple: seq<Slot>, ops: Ops): (r: Result<bool>)
    requires Shaped(e) && InBounds(e, |tuple|)
    ensures r.Success? <==> ComputeAndGet(e, tuple, ops).Success?
    ensures r.Success? ==> (r.value <==> ComputeAndGet(e, tuple, ops).value == Slot(BoolValue(true), false))
  {
    var v := ComputeAndGet(e, tuple, ops);
    if v.Failure? then Failure(v.error) else Success(!v.value.isNull && v.value.value == BoolValue(true))
  }

  /** `_consume` with an expression as written: only the value of `compute_and_get` is consulted. */
  function ExpressionPassesAsWritten(e: JitExpression, tuple: seq<Slot>, ops: Ops): (r: Result<bool>)
    requires Shaped(e) && InBounds(e, |tuple|)
    ensures r.Success? <==> ComputeAndGet(e, tuple, ops).Success?
    ensures r.Success? ==> (r.value <==> ComputeAndGet(e, tuple, ops).value.value == BoolValue(true))
  {
    var v := ComputeAndGet(e, tuple, ops);
    if v.Failure? then Failure(v.error) else Success(v.value.value == BoolValue(true))
  }

  /**
   * A NULL row of a nullable boolean column keeps the value the segment reader stored for the row
   * before it (it sets only the null flag). A filter on that column as an expression then passes the
   * NULL row as written; the corrected filter, like the filter on the condition, does not.
   */
  lemma AsWrittenPassesNull()
    ensures var condition := JitTupleValue(Bool, true, 0);
      var tuple := [Slot(BoolValue(true), true)];
      && ExpressionPassesAsWritten(MakeColumn(condition), tuple, Ops((t, a) => a, (t, s, a, b) => a, (t, p, a, b) => a)) == Success(true)
      && ExpressionPasses(MakeColumn(condition), tuple, Ops((t, a) => a, (t, s, a, b) => a, (t, p, a, b) => a)) == Success(false)
      && !ConditionPasses(condition, tuple)
  {
  }

  /**
   * Filtering on an expression decides as filtering on its condition after `compute` stored the
   * expression's value, in both directions.
   */
  lemma FilterModesAgree(e: JitExpression, tuple: seq<Slot>, ops: Ops)
    requires Shaped(e) && InBounds(e, |tuple|) && NullabilityFlows(e) && Strict(ops)
    requires SeparateSlots(e) && TypedLeaves(e)
    requires ComputeTuple(e, tuple, ops, false).Success? && ExpressionPasses(e, tuple, ops).Success?
    ensures ExpressionPasses(e, tuple, ops).value <==> ConditionPasses(e.result, ComputeTuple(e, tuple, ops, false).value)
  {
    ComputeAndGetAgreesWithCompute(e, tuple, ops);
  }

  class JitFilter {
    const condition: JitTupleValue
    var expression: Option<JitExpression>

    /** The filter on a boolean tuple value. */
    constructor FromCondition(condition: JitTupleValue)
      requires condition.dataType == Bool || condition.dataType == DataTypeBool
      ensures this.condition == condition && expression.None?
    {
      this.condition := condition;
      expression := None;
    }

    /** The filter on a boolean expression, whose result is the condition. */
    constructor FromExpression(expression: JitExpression)
      requires expression.result.dataType == Bool || expression.result.dataType == DataTypeBool
      ensures condition == expression.result && this.expression == Some(expression)
    {
      condition := expression.result;
      this.expression := Some(expression);
    }

    /** `description`: "[Filter] on x<condition index>", from which the index reads back. */
    function Description(): (d: string)
      ensures |d| > 13 && d[..13] == "[Filter] on x"
      ensures AllDigits(d[13..]) && ParseDecimal(d[13..]) == condition.tupleIndex
    {
      var d := "[Filter] on x" + NatToString(condition.tupleIndex);
      assert d[13..] == NatToString(condition.tupleIndex);
      ParsePrinted(condition.tupleIndex);
      d
    }

    /** `_consume`: whether the tuple is passed on to the next operator. */
    method Consume(context: JitRuntimeContext, ops: Ops) returns (r: Result<bool>)
      requires condition.tupleIndex < |context.tuple|
      requires expression.Some? ==> Shaped(expression.value) && InBounds(expression.value, |context.tuple|)
      ensures expression.None? ==> r == Success(ConditionPasses(condition, context.tuple))
      ensures expression.Some? ==> r == ExpressionPasses(expression.value, context.tuple, ops)
    {
      if expression.Some? {
        var v := ComputeAndGet(expression.value, context.tuple, ops);
        if v.Failure? {
          return Failure(v.error);
        }
        return Success(!v.value.isNull && v.value.value == BoolValue(true));
      }
      return Success(!TupleIsNull(condition, context.tuple) && context.tuple[condition.tupleIndex].value == BoolValue(true));
    }

    /**
     * `accessed_column_ids`: the condition alone, not used only once, when filtering on a tuple
     * value; every leaf of the expression, mapped to whether it occurs only once, otherwise.
     */
    method AccessedColumnIds() returns (columnIds: map<nat, bool>)
      ensures expression.None? ==> columnIds == map[condition.tupleIndex := false]
      ensures expression.Some? ==> forall k :: k in columnIds <==> k in Leaves(expression.value)
      ensures expression.Some? ==> forall k :: k in columnIds ==> (columnIds[k] <==> multiset(Preorder(expression.value))[k] == 1)
    {
      if expression.None? {
        return map[condition.tupleIndex := false];
      }
      columnIds := JitExpressions.AccessedColumnIds(expression.value);
      CountsOnceOfLeaves(columnIds, expression.value);
    }

    /** `set_load_column`: only the first leaf reading `tupleId` loads through reader `input`. */
    method SetLoadColumn(tupleId: nat, input: nat)
      requires expression.Some?
      modifies this
      ensures expression.Some?
      ensures var e := old(expression.value);
        && (tupleId in Leaves(e) ==> expression.value == MarkLeafAt(e, FirstPosition(Preorder(e), tupleId), input))
        && (tupleId !in Leaves(e) ==> expression.value == e)
    {
      var marked := JitExpressions.SetLoadColumn(expression.value, tupleId, input);
      expression := Some(marked);
    }
  }
}
