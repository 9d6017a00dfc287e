/** The `JitCompute` operator: computes one expression per tuple into the expression's result slot. */
module JitComputeOperator {
  import opened Wrappers
  import opened JitTypes
  import opened Decimal
  import opened JitExpressions

  /**
   * The runtime tuple after `_consume` has stored the value of `e`: the value always, the null flag
   * only for a nullable result; a result of data type `Null` is left as it is.
   */
  function StoreResult(e: JitExpression, tuple: seq<Slot>, ops: Ops): (r: Result<seq<Slot>>)
    requires Shaped(e) && InBounds(e, |tuple|)
    ensures r.Success? ==> |r.value| == |tuple|
    ensures r.Success? ==> forall i :: 0 <= i < |tuple| && i != e.result.tupleIndex ==> r.value[i] == tuple[i]
    ensures e.result.dataType == Null ==> r == Success(tuple)
    ensures e.result.dataType != Null ==> (r.Success? <==> ComputeAndGet(e, tuple, ops).Success?)
    ensures r.Success? && e.result.dataType != Null ==>
      && r.value[e.result.tupleIndex].value == ComputeAndGet(e, tuple, ops).value.value
      && r.value[e.result.tupleIndex].isNull == (if e.result.isNullable then ComputeAndGet(e, tuple, ops).value.isNull else tuple[e.result.tupleIndex].isNull)
  {
    if e.result.dataType == Null then Success(tuple)
    else
      var v := ComputeAndGet(e, tuple, ops);
      if v.Failure? then Failure(v.error)
      else
        var i := e.result.tupleIndex;
        Success(tuple[i := Slot(v.value.value, if e.result.isNullable then v.value.isNull else tuple[i].isNull)])
  }

  /**
   * What the next operator reads from the result slot after `_consume` is what `compute_and_get`
   * yielded and, without pruning, what `compute` would have stored there.
   */
  lemma StoredResultAsComputed(e: JitExpression, tuple: seq<Slot>, ops: Ops)
    requires Shaped(e) && InBounds(e, |tuple|) && NullabilityFlows(e) && Strict(ops) && NullLeavesNullable(e)
    requires SeparateSlots(e) && TypedLeaves(e) && e.result.dataType != Null
    requires StoreResult(e, tuple, ops).Success? && ComputeTuple(e, tuple, ops, false).Success?
    ensures Read(e.result, StoreResult(e, tuple, ops).value) == ComputeAndGet(e, tuple, ops).value
    ensures Read(e.result, StoreResult(e, tuple, ops).value) == Read(e.result, ComputeTuple(e, tuple, ops, false).value)
  {
    NonNullableNeverNull(e, tuple, ops);
    ComputeAndGetAgreesWithCompute(e, tuple, ops);
  }

  class JitCompute {
    var expression: JitExpression

    constructor (expression: JitExpression)
      ensures this.expression == expression
    {
      this.expression := expression;
    }

    /** `description`: "[Compute] x<result index> = <expression>". */
    function Description(names: TypeNames, lazyLoad: bool): (d: string)
      reads this
      ensures |d| > 11 && d[..11] == "[Compute] x"
    {
      "[Compute] x" + NatToString(expression.result.tupleIndex) + " = " + ToString(expression, names, lazyLoad)
    }

    /** The description balances its parentheses. */
    lemma DescriptionBalanced(names: TypeNames, lazyLoad: bool)
      requires PlainNames(names)
      ensures CountChar(Description(names, lazyLoad), '(') == CountChar(Description(names, lazyLoad), ')')
    {
      var prefix := "[Compute] x" + NatToString(expression.result.tupleIndex) + " = ";
      DescriptionPrefixPlain(prefix, NatToString(expression.result.tupleIndex));
      ToStringBalanced(expression, names, lazyLoad);
      CountCharAppend(prefix, ToString(expression, names, lazyLoad), '(');
      CountCharAppend(prefix, ToString(expression, names, lazyLoad), ')');
    }

    /** `_consume`: stores the expression's value and passes the tuple on. */
    method Consume(context: JitRuntimeContext, ops: Ops) returns (r: Result<bool>)
      requires Shaped(expression) && InBounds(expression, |context.tuple|)
      modifies context`tuple
      ensures var stored := StoreResult(expression, old(context.tuple), ops);
        && (r.Success? <==> stored.Success?)
        && (r.Success? ==> r.value && context.tuple == stored.value)
    {
      if expression.result.dataType != Null {
        var v := ComputeAndGet(expression, context.tuple, ops);
        if v.Failure? {
          return Failure(v.error);
        }
        var i := expression.result.tupleIndex;
        var isNull := if expression.result.isNullable then v.value.isNull else context.tuple[i].isNull;
        context.tuple := context.tuple[i := Slot(v.value.value, isNull)];
      }
      return Success(true);
    }

    /** `accessed_column_ids`: every leaf's tuple index, mapped to whether it occurs only once. */
    method AccessedColumnIds() returns (columnIds: map<nat, bool>)
      ensures forall k :: k in columnIds <==> k in Leaves(expression)
      ensures forall k :: k in columnIds ==> (columnIds[k] <==> multiset(Preorder(expression))[k] == 1)
    {
      columnIds := JitExpressions.AccessedColumnIds(expression);
      CountsOnceOfLeaves(columnIds, expression);
    }

    /** `set_load_column`: only the first leaf reading `tupleId` loads through reader `input`. */
    method SetLoadColumn(tupleId: nat, input: nat)
      modifies this
      ensures tupleId in Leaves(old(expression)) ==>
        expression == MarkLeafAt(old(expression), FirstPosition(Preorder(old(expression)), tupleId), input)
      ensures tupleId !in Leaves(old(expression)) ==> expression == old(expression)
    {
      expression := JitExpressions.SetLoadColumn(expression, tupleId, input);
    }
  }

  lemma DescriptionPrefixPlain(prefix: string, digits: string)
    requires forall i :: 0 <= i < |digits| ==> IsDigit(digits[i])
    requires prefix == "[Compute] x" + digits + " = "
    ensures CountChar(prefix, '(') == 0 && CountChar(prefix, ')') == 0
  {
    forall ch | ch == '(' || ch == ')'
      ensures CountChar(prefix, ch) == 0
    {
      CountCharAbsent(prefix, ch);
    }
  }
}
