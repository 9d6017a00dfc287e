/**
 * JIT expressions: binary trees whose leaves name tuple values (`Column` nodes) and whose inner
 * nodes compute a result into their own slot of the runtime tuple. Covers the result typing done
 * by the constructors, `to_string`, the control flow of `compute` and of `compute_and_get`, and the
 * two stack traversals that `JitCompute` and `JitFilter` share (`accessed_column_ids`,
 * `set_load_column`).
 *
 * The operations themselves (`jit_addition`, `jit_and`, `jit_compute_type`, ...) live in
 * `jit_operations.hpp`, which is not part of this model; they are parameters here.
 */
module JitExpressions {
  import opened Wrappers
  import opened JitTypes
  import opened Decimal

  /**
   * A JIT expression. A leaf references a tuple value and may have been told to load its column
   * lazily through input reader `inputColumnIndex`; an inner node has one or two children and the
   * tuple value its result is written to.
   */
  datatype JitExpression =
    | ColumnLeaf(result: JitTupleValue, loadColumn: bool, inputColumnIndex: nat)
    | UnaryNode(child: JitExpression, op: OperatorType, result: JitTupleValue)
    | BinaryNode(left: JitExpression, op: OperatorType, right: JitExpression, result: JitTupleValue)

  /** `expression_type()`. */
  function ExpressionType(e: JitExpression): JitExpressionType
  {
    if e.ColumnLeaf? then Column else e.op
  }

  /** The data type `jit_compute_type` gives an arithmetic operation on two operand types. */
  type ComputeType = (JitExpressionType, DataType, DataType) -> DataType

  /**
   * `_compute_result_type`: the data type and nullability of a node's result, from its type and its
   * children's results (`right` is absent for a one-child node).
   */
  function ResultType(t: JitExpressionType, left: JitTupleValue, right: Option<JitTupleValue>, computeType: ComputeType): (r: Result<(DataType, bool)>)
    requires IsBinary(t) ==> right.Some?
    ensures !IsBinary(t) ==> (r.Success? <==> t == Not || t == IsNull || t == IsNotNull)
    ensures r.Success? && !IsArithmetic(t) ==> r.value.0 == Bool
    ensures r.Success? && IsBinary(t) ==>
      (r.value.1 <==> left.isNullable || right.value.isNullable || left.dataType == Null || right.value.dataType == Null)
  {
    if !IsBinary(t) then
      if t == Not then Success((Bool, left.isNullable))
      else if t == IsNull || t == IsNotNull then Success((Bool, false))
      else Failure("Expression type not supported.")
    else
      var dataType :=
        if IsArithmetic(t) then Some(computeType(t, left.dataType, right.value.dataType))
        else if IsComparison(t) || t == Like || t == NotLike || t == And || t == Or then Some(Bool)
        else None;
      if dataType.None? then Failure("Expression type not supported.")
      else
        var inputIsNull := left.dataType == Null || right.value.dataType == Null;
        Success((dataType.value, inputIsNull || left.isNullable || right.value.isNullable))
  }

  /** Every binary type the constructors accept is arithmetic, a comparison, a pattern match or a connective. */
  lemma BinaryTypesAccepted(t: JitExpressionType, left: JitTupleValue, right: JitTupleValue, computeType: ComputeType)
    requires IsBinary(t)
    ensures ResultType(t, left, Some(right), computeType).Success?
  {
  }

  /** `JitExpression(tuple_value)`: a leaf. */
  function MakeColumn(tupleValue: JitTupleValue): (e: JitExpression)
    ensures ExpressionType(e) == Column && e.result == tupleValue && !e.loadColumn
  {
    ColumnLeaf(tupleValue, false, 0)
  }

  /** The one-child constructor: fails for types that are not unary. */
  function MakeUnary(child: JitExpression, t: JitExpressionType, resultTupleIndex: nat, computeType: ComputeType): (r: Result<JitExpression>)
    requires !IsBinary(t)
    ensures r.Success? <==> t == Not || t == IsNull || t == IsNotNull
    ensures r.Success? ==> WellTyped(child, computeType) ==> WellTyped(r.value, computeType)
    ensures r.Success? ==> r.value.result.tupleIndex == resultTupleIndex && ExpressionType(r.value) == t
  {
    var rt := ResultType(t, child.result, None, computeType);
    if rt.Failure? then Failure(rt.error)
    else Success(UnaryNode(child, t, JitTupleValue(rt.value.0, rt.value.1, resultTupleIndex)))
  }

  /** The two-child constructor. */
  function MakeBinary(left: JitExpression, t: JitExpressionType, right: JitExpression, resultTupleIndex: nat, computeType: ComputeType): (r: Result<JitExpression>)
    ensures r.Success? <==> t != Column && (IsBinary(t) || t == Not || t == IsNull || t == IsNotNull)
    ensures r.Success? ==> WellTyped(left, computeType) && WellTyped(right, computeType) ==> WellTyped(r.value, computeType)
    ensures r.Success? ==> r.value.result.tupleIndex == resultTupleIndex && ExpressionType(r.value) == t
  {
    var rt := ResultType(t, left.result, Some(right.result), computeType);
    if rt.Failure? then Failure(rt.error)
    else Success(BinaryNode(left, t, right, JitTupleValue(rt.value.0, rt.value.1, resultTupleIndex)))
  }

  /** Every inner node carries the result type its constructor computed from its children. */
  predicate WellTyped(e: JitExpression, computeType: ComputeType)
  {
    match e
    case ColumnLeaf(_, _, _) => true
    case UnaryNode(c, t, res) =>
      && !IsBinary(t) && WellTyped(c, computeType)
      && ResultType(t, c.result, None, computeType) == Success((res.dataType, res.isNullable))
    case BinaryNode(l, t, r, res) =>
      && WellTyped(l, computeType) && WellTyped(r, computeType)
      && ResultType(t, l.result, Some(r.result), computeType) == Success((res.dataType, res.isNullable))
  }

  /** One-child nodes carry unary types, as their constructor demands. */
  predicate Shaped(e: JitExpression)
  {
    match e
    case ColumnLeaf(_, _, _) => true
    case UnaryNode(c, t, _) => !IsBinary(t) && Shaped(c)
    case BinaryNode(l, _, r, _) => Shaped(l) && Shaped(r)
  }

  lemma WellTypedIsShaped(e: JitExpression, computeType: ComputeType)
    requires WellTyped(e, computeType)
    ensures Shaped(e)
  {
  }

  // ---------------------------------------------------------------------------------------------
  // to_string

  function CountChar(s: string, c: char): nat
  {
    if |s| == 0 then 0 else CountChar(s[..|s| - 1], c) + (if s[|s| - 1] == c then 1 else 0)
  }

  lemma {:induction false} CountCharAppend(s: string, t: string, c: char)
    ensures CountChar(s + t, c) == CountChar(s, c) + CountChar(t, c)
    decreases |t|
  {
    if |t| == 0 {
      assert s + t == s;
    } else {
      assert (s + t)[..|s + t| - 1] == s + t[..|t| - 1];
      CountCharAppend(s, t[..|t| - 1], c);
    }
  }

  lemma {:induction false} CountCharAbsent(s: string, c: char)
    requires forall i :: 0 <= i < |s| ==> s[i] != c
    ensures CountChar(s, c) == 0
    decreases |s|
  {
    if |s| > 0 {
      CountCharAbsent(s[..|s| - 1], c);
    }
  }

  lemma CountCharDigits(s: string, c: char)
    requires forall i :: 0 <= i < |s| ==> IsDigit(s[i])
    requires !IsDigit(c)
    ensures CountChar(s, c) == 0
  {
    CountCharAbsent(s, c);
  }

  /** The names `jit_expression_type_to_string` gives the expression types. */
  type TypeNames = JitExpressionType -> string

  /**
   * `to_string`: "x<index>" for a leaf (followed by the input reader it loads through when lazy
   * loading is compiled in and the leaf loads), "(<left> <op> <right> )" for an inner node, with the
   * right part left out for one-child nodes.
   */
  function ToString(e: JitExpression, names: TypeNames, lazyLoad: bool): string
  {
    match e
    case ColumnLeaf(res, load, input) =>
      "x" + NatToString(res.tupleIndex) + (if lazyLoad && load then " (Using input reader #" + NatToString(input) + ")" else "")
    case UnaryNode(c, t, _) =>
      "(" + ToString(c, names, lazyLoad) + " " + names(t) + " " + ")"
    case BinaryNode(l, t, r, _) =>
      "(" + ToString(l, names, lazyLoad) + " " + names(t) + " " + ToString(r, names, lazyLoad) + " " + ")"
  }

  /** Names free of parentheses. */
  ghost predicate PlainNames(names: TypeNames)
  {
    forall t :: CountChar(names(t), '(') == 0 && CountChar(names(t), ')') == 0
  }

  /** A leaf prints as "x" and its index; an inner node prints in parentheses. */
  lemma ToStringShape(e: JitExpression, names: TypeNames, lazyLoad: bool)
    ensures var s := ToString(e, names, lazyLoad);
      |s| > 0 && (e.ColumnLeaf? <==> s[0] == 'x') && (!e.ColumnLeaf? <==> s[0] == '(' && s[|s| - 1] == ')')
  {
  }

  /** The parentheses in the printed form of a leaf. */
  lemma LeafParentheses(d: string, tail: string, ch: char)
    requires forall i :: 0 <= i < |d| ==> IsDigit(d[i])
    requires ch == '(' || ch == ')'
    ensures CountChar("x" + d + tail, ch) == CountChar(tail, ch)
  {
    CountCharDigits(d, ch);
    CountCharAppend("x", d, ch);
    CountCharAppend("x" + d, tail, ch);
  }

  /** The parentheses in the input-reader note of a lazily loading leaf. */
  lemma ReaderNoteParentheses(i: string, ch: char)
    requires forall k :: 0 <= k < |i| ==> IsDigit(i[k])
    requires ch == '(' || ch == ')'
    ensures CountChar(" (Using input reader #" + i + ")", ch) == 1
  {
    CountCharDigits(i, ch);
    CountCharAbsent("Using input reader #", ch);
    CountCharAppend(" (", "Using input reader #", ch);
    assert " (" + "Using input reader #" == " (Using input reader #";
    CountCharAppend(" (Using input reader #", i, ch);
    CountCharAppend(" (Using input reader #" + i, ")", ch);
  }

  /** The parentheses in the printed form of a one-child node. */
  lemma UnaryParentheses(cs: string, name: string, ch: char)
    requires ch == '(' || ch == ')'
    ensures CountChar("(" + cs + " " + name + " " + ")", ch) == 1 + CountChar(cs, ch) + CountChar(name, ch)
  {
    CountCharAppend("(", cs, ch);
    CountCharAppend("(" + cs, " ", ch);
    CountCharAppend("(" + cs + " ", name, ch);
    CountCharAppend("(" + cs + " " + name, " ", ch);
    CountCharAppend("(" + cs + " " + name + " ", ")", ch);
  }

  /** The parentheses in the printed form of a two-child node. */
  lemma BinaryParentheses(ls: string, name: string, rs: string, ch: char)
    requires ch == '(' || ch == ')'
    ensures CountChar("(" + ls + " " + name + " " + rs + " " + ")", ch) == 1 + CountChar(ls, ch) + CountChar(name, ch) + CountChar(rs, ch)
  {
    UnaryParentheses(ls, name, ch);
    var u := "(" + ls + " " + name + " ";
    assert "(" + ls + " " + name + " " + rs + " " + ")" == u + (rs + " " + ")");
    assert u + ")" == "(" + ls + " " + name + " " + ")";
    CountCharAppend(u, ")", ch);
    CountCharAppend(u, rs + " " + ")", ch);
    CountCharAppend(rs, " ", ch);
    CountCharAppend(rs + " ", ")", ch);
  }

  /** The printed expression has as many opening as closing parentheses. */
  lemma {:induction false} ToStringBalanced(e: JitExpression, names: TypeNames, lazyLoad: bool)
    requires PlainNames(names)
    ensures CountChar(ToString(e, names, lazyLoad), '(') == CountChar(ToString(e, names, lazyLoad), ')')
  {
    match e
    case ColumnLeaf(res, load, input) =>
      var tail := if lazyLoad && load then " (Using input reader #" + NatToString(input) + ")" else "";
      LeafParentheses(NatToString(res.tupleIndex), tail, '(');
      LeafParentheses(NatToString(res.tupleIndex), tail, ')');
      if lazyLoad && load {
        ReaderNoteParentheses(NatToString(input), '(');
        ReaderNoteParentheses(NatToString(input), ')');
      }
    case UnaryNode(c, t, _) =>
      ToStringBalanced(c, names, lazyLoad);
      UnaryParentheses(ToString(c, names, lazyLoad), names(t), '(');
      UnaryParentheses(ToString(c, names, lazyLoad), names(t), ')');
    case BinaryNode(l, t, r, _) =>
      ToStringBalanced(l, names, lazyLoad);
      ToStringBalanced(r, names, lazyLoad);
      BinaryParentheses(ToString(l, names, lazyLoad), names(t), ToString(r, names, lazyLoad), '(');
      BinaryParentheses(ToString(l, names, lazyLoad), names(t), ToString(r, names, lazyLoad), ')');
  }

  // ---------------------------------------------------------------------------------------------
  // compute and compute_and_get

  /**
   * The value-level operations of `jit_operations.hpp`: each takes the operand slots as read from the
   * tuple and yields the result slot. `binary` receives whether the string version of a comparison is
   * meant, `logical` whether the right operand was pruned (not computed).
   */
  datatype Ops = Ops(
    unary: (JitExpressionType, Slot) -> Slot,
    binary: (JitExpressionType, bool, Slot, Slot) -> Slot,
    logical: (JitExpressionType, bool, Slot, Slot) -> Slot)

  /** Every tuple value the expression names lies inside a tuple of n slots. */
  predicate InBounds(e: JitExpression, n: nat)
    ensures InBounds(e, n) ==> e.result.tupleIndex < n
  {
    match e
    case ColumnLeaf(res, _, _) => res.tupleIndex < n
    case UnaryNode(c, _, res) => res.tupleIndex < n && InBounds(c, n)
    case BinaryNode(l, _, r, res) => res.tupleIndex < n && InBounds(l, n) && InBounds(r, n)
  }

  /** A tuple value as an operation sees it: its value, and NULL only when it is nullable and flagged. */
  function Read(tv: JitTupleValue, tuple: seq<Slot>): (s: Slot)
    requires tv.tupleIndex < |tuple|
    ensures s.isNull ==> tv.isNullable
  {
    Slot(tuple[tv.tupleIndex].value, TupleIsNull(tv, tuple))
  }

  /** The left operand of a pruning AND is known FALSE, of a pruning OR known TRUE. */
  predicate Prunes(t: JitExpressionType, left: JitTupleValue, tuple: seq<Slot>)
    requires left.tupleIndex < |tuple|
  {
    && !TupleIsNull(left, tuple)
    && ((t == And && tuple[left.tupleIndex].value == BoolValue(false)) || (t == Or && tuple[left.tupleIndex].value == BoolValue(true)))
  }

  /**
   * `compute`: the runtime tuple after evaluating `e` bottom-up, each inner node writing its result
   * slot. Leaves are already computed. With logical pruning compiled in, an AND whose left operand is
   * FALSE and an OR whose left operand is TRUE are decided without computing the right operand. A
   * string left operand selects the string comparisons; LIKE and NOT LIKE are not supported here.
   */
  function ComputeTuple(e: JitExpression, tuple: seq<Slot>, ops: Ops, pruning: bool): (r: Result<seq<Slot>>)
    requires Shaped(e) && InBounds(e, |tuple|)
    ensures r.Success? ==> |r.value| == |tuple|
    decreases e
  {
    match e
    case ColumnLeaf(_, _, _) => Success(tuple)
    case UnaryNode(c, t, res) =>
      var t1 := ComputeTuple(c, tuple, ops, pruning);
      if t1.Failure? then t1
      else Success(t1.value[res.tupleIndex := ops.unary(t, Read(c.result, t1.value))])
    case BinaryNode(l, t, r, res) =>
      var t1 := ComputeTuple(l, tuple, ops, pruning);
      if t1.Failure? then t1
      else if !IsBinary(t) then Success(t1.value[res.tupleIndex := ops.unary(t, Read(l.result, t1.value))])
      else if pruning && Prunes(t, l.result, t1.value) then
        Success(t1.value[res.tupleIndex := ops.logical(t, true, Read(l.result, t1.value), Read(r.result, t1.value))])
      else
        var t2 := ComputeTuple(r, t1.value, ops, pruning);
        if t2.Failure? then t2
        else
          var v := ComputeSwitch(t, l.result.dataType == String, Read(l.result, t2.value), Read(r.result, t2.value), ops);
          if v.Failure? then Failure(v.error) else Success(t2.value[res.tupleIndex := v.value])
  }

  /**
   * The operation `compute` applies to computed operands: the string comparisons for a string left
   * operand, else the arithmetic and comparison operations, else the connectives.
   */
  function ComputeSwitch(t: JitExpressionType, stringLeft: bool, a: Slot, b: Slot, ops: Ops): (r: Result<Slot>)
    ensures r.Success? <==> IsArithmetic(t) || IsComparison(t) || t == And || t == Or
  {
    if stringLeft && IsComparison(t) then Success(ops.binary(t, true, a, b))
    else if IsArithmetic(t) || IsComparison(t) then Success(ops.binary(t, false, a, b))
    else if t == And || t == Or then Success(ops.logical(t, false, a, b))
    else Failure("Expression type is not supported.")
  }

  /** `compute` on the runtime tuple of a context. */
  method Compute(e: JitExpression, context: JitRuntimeContext, ops: Ops, pruning: bool) returns (r: Result<()>)
    requires Shaped(e) && InBounds(e, |context.tuple|)
    modifies context`tuple
    ensures var expected := ComputeTuple(e, old(context.tuple), ops, pruning);
      (r.Success? <==> expected.Success?) && (r.Success? ==> context.tuple == expected.value)
    decreases e
  {
    match e
    case ColumnLeaf(_, _, _) =>
      return Success(());
    case UnaryNode(c, t, res) =>
      r := Compute(c, context, ops, pruning);
      if r.Failure? { return; }
      context.tuple := context.tuple[res.tupleIndex := ops.unary(t, Read(c.result, context.tuple))];
    case BinaryNode(l, t, rt, res) =>
      r := Compute(l, context, ops, pruning);
      if r.Failure? { return; }
      if !IsBinary(t) {
        context.tuple := context.tuple[res.tupleIndex := ops.unary(t, Read(l.result, context.tuple))];
        return;
      }
      if pruning && Prunes(t, l.result, context.tuple) {
        context.tuple := context.tuple[res.tupleIndex := ops.logical(t, true, Read(l.result, context.tuple), Read(rt.result, context.tuple))];
        return;
      }
      r := Compute(rt, context, ops, pruning);
      if r.Failure? { return; }
      var v := ComputeSwitch(t, l.result.dataType == String, Read(l.result, context.tuple), Read(rt.result, context.tuple), ops);
      if v.Failure? {
        return Failure(v.error);
      }
      context.tuple := context.tuple[res.tupleIndex := v.value];
  }

  /** The result slots of the inner nodes. */
  function Writes(e: JitExpression): set<nat>
  {
    match e
    case ColumnLeaf(_, _, _) => {}
    case UnaryNode(c, _, res) => {res.tupleIndex} + Writes(c)
    case BinaryNode(l, _, r, res) => {res.tupleIndex} + Writes(l) + Writes(r)
  }

  /** The slots the leaves read. */
  function Leaves(e: JitExpression): set<nat>
  {
    match e
    case ColumnLeaf(res, _, _) => {res.tupleIndex}
    case UnaryNode(c, _, _) => Leaves(c)
    case BinaryNode(l, _, r, _) => Leaves(l) + Leaves(r)
  }

  /** `compute` leaves every slot alone that no inner node of `e` owns. */
  lemma {:induction false} ComputeWritesOnlyResults(e: JitExpression, tuple: seq<Slot>, ops: Ops, pruning: bool, i: nat)
    requires Shaped(e) && InBounds(e, |tuple|)
    requires ComputeTuple(e, tuple, ops, pruning).Success?
    requires i < |tuple| && i !in Writes(e)
    ensures ComputeTuple(e, tuple, ops, pruning).value[i] == tuple[i]
    decreases e
  {
    match e
    case ColumnLeaf(_, _, _) =>
    case UnaryNode(c, t, res) =>
      ComputeWritesOnlyResults(c, tuple, ops, pruning, i);
    case BinaryNode(l, t, r, res) =>
      ComputeWritesOnlyResults(l, tuple, ops, pruning, i);
      var t1 := ComputeTuple(l, tuple, ops, pruning).value;
      if IsBinary(t) && !(pruning && Prunes(t, l.result, t1)) {
        ComputeWritesOnlyResults(r, t1, ops, pruning, i);
      }
  }

  /**
   * Logical pruning: when the left operand of an AND is FALSE (of an OR TRUE) after computing it, the
   * right operand is never computed, so the node computes as if its right operand were a bare leaf.
   */
  lemma PrunedRightIsNotComputed(l: JitExpression, t: OperatorType, r: JitExpression, res: JitTupleValue, tuple: seq<Slot>, ops: Ops)
    requires t == And || t == Or
    requires Shaped(BinaryNode(l, t, r, res)) && InBounds(BinaryNode(l, t, r, res), |tuple|)
    requires ComputeTuple(l, tuple, ops, true).Success?
    requires Prunes(t, l.result, ComputeTuple(l, tuple, ops, true).value)
    ensures ComputeTuple(BinaryNode(l, t, r, res), tuple, ops, true)
         == ComputeTuple(BinaryNode(l, t, MakeColumn(r.result), res), tuple, ops, true)
  {
  }

  /**
   * A two-child node of a one-child type (NOT, IS NULL, IS NOT NULL) applies its operation to the left
   * child alone: it computes, and gets, as the one-child node over its left child, never touching the
   * right child.
   */
  lemma TwoChildUnaryIsUnary(l: JitExpression, t: OperatorType, r: JitExpression, res: JitTupleValue, tuple: seq<Slot>, ops: Ops, pruning: bool)
    requires !IsBinary(t)
    requires Shaped(BinaryNode(l, t, r, res)) && InBounds(BinaryNode(l, t, r, res), |tuple|)
    ensures ComputeTuple(BinaryNode(l, t, r, res), tuple, ops, pruning) == ComputeTuple(UnaryNode(l, t, res), tuple, ops, pruning)
    ensures ComputeAndGet(BinaryNode(l, t, r, res), tuple, ops) == ComputeAndGet(UnaryNode(l, t, res), tuple, ops)
  {
  }

  /**
   * `compute_and_get`: the value of `e` computed recursively without writing the tuple. A leaf of
   * data type `Null` is NULL, another leaf is read; a string left operand selects the string
   * comparisons and LIKE; other types on a string fail. AND and OR evaluate both operands.
   */
  function ComputeAndGet(e: JitExpression, tuple: seq<Slot>, ops: Ops): (r: Result<Slot>)
    requires Shaped(e) && InBounds(e, |tuple|)
    ensures e.ColumnLeaf? ==> r.Success?
    ensures e.ColumnLeaf? && e.result.dataType == Null ==> r.value.isNull
    ensures r.Success? && e.BinaryNode? && IsBinary(e.op) ==> GetSupported(e.op, e.left.result.dataType == String)
    decreases e
  {
    match e
    case ColumnLeaf(res, _, _) =>
      if res.dataType == Null then Success(Slot(NullValue, true)) else Success(Read(res, tuple))
    case UnaryNode(c, t, _) =>
      var v := ComputeAndGet(c, tuple, ops);
      if v.Failure? then v else Success(ops.unary(t, v.value))
    case BinaryNode(l, t, r, _) =>
      var stringLeft := l.result.dataType == String;
      if !IsBinary(t) then
        var a := ComputeAndGet(l, tuple, ops);
        if a.Failure? then a else Success(ops.unary(t, a.value))
      else if !GetSupported(t, stringLeft) then
        Failure(if stringLeft then "Expression type not supported." else "Expression type is not supported.")
      else
        var a := ComputeAndGet(l, tuple, ops);
        if a.Failure? then a
        else
          var b := ComputeAndGet(r, tuple, ops);
          if b.Failure? then b else Success(GetSwitch(t, stringLeft, a.value, b.value, ops))
  }

  /** The types `compute_and_get` supports: on a string left operand the comparisons and LIKE. */
  predicate GetSupported(t: JitExpressionType, stringLeft: bool)
  {
    if stringLeft then IsComparison(t) || t == Like || t == NotLike
    else IsArithmetic(t) || IsComparison(t) || t == And || t == Or
  }

  /** The operation `compute_and_get` applies to the operands' values. */
  function GetSwitch(t: JitExpressionType, stringLeft: bool, a: Slot, b: Slot, ops: Ops): Slot
    requires GetSupported(t, stringLeft)
  {
    if stringLeft then ops.binary(t, true, a, b)
    else if t == And || t == Or then ops.logical(t, false, a, b)
    else ops.binary(t, false, a, b)
  }

  /**
   * The two switches select the same operation wherever both support the type; only `compute_and_get`
   * supports LIKE, and only `compute` arithmetic and connectives on a string left operand.
   */
  lemma SwitchesAgree(t: JitExpressionType, stringLeft: bool, a: Slot, b: Slot, ops: Ops)
    requires GetSupported(t, stringLeft)
    ensures ComputeSwitch(t, stringLeft, a, b, ops).Success? <==> !(t == Like || t == NotLike)
    ensures ComputeSwitch(t, stringLeft, a, b, ops).Success? ==> ComputeSwitch(t, stringLeft, a, b, ops).value == GetSwitch(t, stringLeft, a, b, ops)
  {
  }

  /** NULL propagates: an operation yields NULL only from a NULL operand; IS [NOT] NULL never does. */
  ghost predicate Strict(ops: Ops)
  {
    && (forall t, a :: ops.unary(t, a).isNull ==> t == Not && a.isNull)
    && (forall t, s, a, b :: ops.binary(t, s, a, b).isNull ==> a.isNull || b.isNull)
    && (forall t, p, a, b :: ops.logical(t, p, a, b).isNull ==> a.isNull || b.isNull)
  }

  /** Leaves of data type `Null` are declared nullable. */
  predicate NullLeavesNullable(e: JitExpression)
  {
    match e
    case ColumnLeaf(res, _, _) => res.dataType == Null ==> res.isNullable
    case UnaryNode(c, _, _) => NullLeavesNullable(c)
    case BinaryNode(l, _, r, _) => NullLeavesNullable(l) && NullLeavesNullable(r)
  }

  /** NOT and the two-child nodes are nullable whenever an operand is. */
  predicate NullabilityFlows(e: JitExpression)
  {
    match e
    case ColumnLeaf(_, _, _) => true
    case UnaryNode(c, t, res) => (t == Not && c.result.isNullable ==> res.isNullable) && NullabilityFlows(c)
    case BinaryNode(l, t, r, res) =>
      && (IsBinary(t) && (l.result.isNullable || r.result.isNullable) ==> res.isNullable)
      && (t == Not && l.result.isNullable ==> res.isNullable)
      && NullabilityFlows(l) && NullabilityFlows(r)
  }

  /** The constructors' result types let nullability flow upwards. */
  lemma {:induction false} WellTypedNullabilityFlows(e: JitExpression, computeType: ComputeType)
    requires WellTyped(e, computeType)
    ensures NullabilityFlows(e)
  {
    match e
    case ColumnLeaf(_, _, _) =>
    case UnaryNode(c, _, _) => WellTypedNullabilityFlows(c, computeType);
    case BinaryNode(l, _, r, _) => WellTypedNullabilityFlows(l, computeType); WellTypedNullabilityFlows(r, computeType);
  }

  /** With strict operations, an expression whose result type is not nullable never yields NULL. */
  lemma {:induction false} NonNullableNeverNull(e: JitExpression, tuple: seq<Slot>, ops: Ops)
    requires NullabilityFlows(e) && Shaped(e) && InBounds(e, |tuple|) && Strict(ops) && NullLeavesNullable(e)
    requires ComputeAndGet(e, tuple, ops).Success?
    ensures ComputeAndGet(e, tuple, ops).value.isNull ==> e.result.isNullable
    decreases e
  {
    match e
    case ColumnLeaf(res, _, _) =>
    case UnaryNode(c, t, _) =>
      NonNullableNeverNull(c, tuple, ops);
    case BinaryNode(l, t, r, res) =>
      if !IsBinary(t) {
        NonNullableNeverNull(l, tuple, ops);
        return;
      }
      UnfoldGetBinary(l, t, r, res, tuple, ops);
      NonNullableNeverNull(l, tuple, ops);
      NonNullableNeverNull(r, tuple, ops);
      var a, b := ComputeAndGet(l, tuple, ops).value, ComputeAndGet(r, tuple, ops).value;
      StrictResultNullable(t, l.result, r.result, res, a, b, ops);
      assert ComputeAndGet(e, tuple, ops).value == GetSwitch(t, l.result.dataType == String, a, b, ops);
  }

  // ---------------------------------------------------------------------------------------------
  // The stack traversals of accessed_column_ids and set_load_column

  /** The tuple indices of the leaves, in preorder with the left child before the right. */
  function Preorder(e: JitExpression): (s: seq<nat>)
    ensures forall k :: k in s <==> k in Leaves(e)
  {
    match e
    case ColumnLeaf(res, _, _) => [res.tupleIndex]
    case UnaryNode(c, _, _) => Preorder(c)
    case BinaryNode(l, _, r, _) => Preorder(l) + Preorder(r)
  }

  function Size(e: JitExpression): nat
  {
    match e
    case ColumnLeaf(_, _, _) => 1
    case UnaryNode(c, _, _) => 1 + Size(c)
    case BinaryNode(l, _, r, _) => 1 + Size(l) + Size(r)
  }

  /** The leaves still to be visited from an explicit stack whose top is its last element. */
  function StackOrder(stack: seq<JitExpression>): seq<nat>
  {
    if |stack| == 0 then [] else Preorder(stack[|stack| - 1]) + StackOrder(stack[..|stack| - 1])
  }

  function StackSize(stack: seq<JitExpression>): nat
  {
    if |stack| == 0 then 0 else Size(stack[|stack| - 1]) + StackSize(stack[..|stack| - 1])
  }

  /** The stack after popping `current`: its right child is pushed before its left child. */
  function PushChildren(rest: seq<JitExpression>, current: JitExpression): seq<JitExpression>
  {
    match current
    case ColumnLeaf(_, _, _) => rest
    case UnaryNode(c, _, _) => rest + [c]
    case BinaryNode(l, _, r, _) => rest + [r] + [l]
  }

  /** Popping a node and pushing its children keeps the order in which leaves are reached. */
  lemma PopPush(stack: seq<JitExpression>)
    requires |stack| > 0
    ensures var current := stack[|stack| - 1];
      StackOrder(stack) == (if current.ColumnLeaf? then [current.result.tupleIndex] else []) + StackOrder(PushChildren(stack[..|stack| - 1], current))
    ensures StackSize(PushChildren(stack[..|stack| - 1], stack[|stack| - 1])) < StackSize(stack)
  {
    var current, rest := stack[|stack| - 1], stack[..|stack| - 1];
    assert stack == rest + [current];
    PushedOne(rest, current);
    match current
    case ColumnLeaf(_, _, _) =>
    case UnaryNode(c, _, _) =>
      PushedOne(rest, c);
    case BinaryNode(l, _, r, _) =>
      PushedTwo(rest, r, l);
  }

  lemma PushedTwo(rest: seq<JitExpression>, r: JitExpression, l: JitExpression)
    ensures StackOrder(rest + [r] + [l]) == Preorder(l) + Preorder(r) + StackOrder(rest)
    ensures StackSize(rest + [r] + [l]) == Size(l) + Size(r) + StackSize(rest)
  {
    PushedOne(rest, r);
    PushedOne(rest + [r], l);
  }

  lemma PushedOne(rest: seq<JitExpression>, e: JitExpression)
    ensures StackOrder(rest + [e]) == Preorder(e) + StackOrder(rest)
    ensures StackSize(rest + [e]) == Size(e) + StackSize(rest)
  {
    assert (rest + [e])[..|rest|] == rest;
  }

  /** `columnIds` maps each index in `visited` to whether it occurs there exactly once. */
  ghost predicate CountsOnce(columnIds: map<nat, bool>, visited: seq<nat>)
  {
    && (forall k :: k in columnIds <==> k in visited)
    && (forall k :: k in columnIds ==> (columnIds[k] <==> multiset(visited)[k] == 1))
  }

  /** `column_ids[i] = !column_ids.count(i)` keeps the exactly-once map of the leaves visited. */
  lemma CountsOnceStep(columnIds: map<nat, bool>, visited: seq<nat>, i: nat)
    requires CountsOnce(columnIds, visited)
    ensures CountsOnce(columnIds[i := i !in columnIds], visited + [i])
  {
    var m, v := columnIds[i := i !in columnIds], visited + [i];
    assert multiset(v) == multiset(visited) + multiset{i};
    forall k | k in m
      ensures m[k] <==> multiset(v)[k] == 1
    {
      if k == i && i in columnIds {
        assert i in visited;
      }
    }
  }

  /** An exactly-once map of the leaves has the leaves' tuple indices as keys. */
  lemma CountsOnceOfLeaves(columnIds: map<nat, bool>, e: JitExpression)
    requires CountsOnce(columnIds, Preorder(e))
    ensures forall k :: k in columnIds <==> k in Leaves(e)
    ensures forall k :: k in columnIds ==> (columnIds[k] <==> multiset(Preorder(e))[k] == 1)
  {
  }

  /**
   * `accessed_column_ids`: walks the expression on an explicit stack and maps the tuple index of every
   * leaf to whether it has been seen only once (`CountsOnceOfLeaves` spells the result out).
   */
  method AccessedColumnIds(e: JitExpression) returns (columnIds: map<nat, bool>)
    ensures CountsOnce(columnIds, Preorder(e))
  {
    columnIds := map[];
    var stack := [e];
    ghost var visited: seq<nat> := [];
    assert StackOrder(stack) == Preorder(e) by {
      assert stack[..0] == [];
    }
    while |stack| > 0
      invariant visited + StackOrder(stack) == Preorder(e)
      invariant CountsOnce(columnIds, visited)
      decreases StackSize(stack)
    {
      PopPush(stack);
      var current := stack[|stack| - 1];
      var next := PushChildren(stack[..|stack| - 1], current);
      if current.ColumnLeaf? {
        var tupleIndex := current.result.tupleIndex;
        CountsOnceStep(columnIds, visited, tupleIndex);
        assert visited + [tupleIndex] + StackOrder(next) == visited + StackOrder(stack);
        columnIds := columnIds[tupleIndex := tupleIndex !in columnIds];
        visited := visited + [tupleIndex];
      } else {
        assert StackOrder(next) == StackOrder(stack);
      }
      stack := next;
    }
    assert visited == Preorder(e);
  }

  /** The lazy-load settings of the leaves, in preorder. */
  function LoadFlags(e: JitExpression): seq<(bool, nat)>
  {
    match e
    case ColumnLeaf(_, load, input) => [(load, input)]
    case UnaryNode(c, _, _) => LoadFlags(c)
    case BinaryNode(l, _, r, _) => LoadFlags(l) + LoadFlags(r)
  }

  lemma {:induction false} LoadFlagsLength(e: JitExpression)
    ensures |LoadFlags(e)| == |Preorder(e)|
  {
    match e
    case ColumnLeaf(_, _, _) =>
    case UnaryNode(c, _, _) => LoadFlagsLength(c);
    case BinaryNode(l, _, r, _) => LoadFlagsLength(l); LoadFlagsLength(r);
  }

  /** The expression with the leaf at preorder position p told to load through input reader `input`. */
  function MarkLeafAt(e: JitExpression, p: nat, input: nat): JitExpression
    requires p < |Preorder(e)|
  {
    match e
    case ColumnLeaf(res, _, _) => ColumnLeaf(res, true, input)
    case UnaryNode(c, t, res) => UnaryNode(MarkLeafAt(c, p, input), t, res)
    case BinaryNode(l, t, r, res) =>
      if p < |Preorder(l)| then BinaryNode(MarkLeafAt(l, p, input), t, r, res)
      else BinaryNode(l, t, MarkLeafAt(r, p - |Preorder(l)|, input), res)
  }

  /**
   * Marking a leaf changes that leaf's load setting and nothing else: the tree, its types, tuple
   * indices and its other leaves stay as they were.
   */
  lemma {:induction false} MarkLeafAtKeepsTree(e: JitExpression, p: nat, input: nat)
    requires p < |Preorder(e)|
    ensures var m := MarkLeafAt(e, p, input);
      && Preorder(m) == Preorder(e) && Writes(m) == Writes(e) && m.result == e.result
      && (Shaped(e) ==> Shaped(m)) && (forall n :: InBounds(e, n) ==> InBounds(m, n))
  {
    match e
    case ColumnLeaf(_, _, _) =>
    case UnaryNode(c, _, _) =>
      MarkLeafAtKeepsTree(c, p, input);
    case BinaryNode(l, _, r, _) =>
      if p < |Preorder(l)| {
        MarkLeafAtKeepsTree(l, p, input);
      } else {
        MarkLeafAtKeepsTree(r, p - |Preorder(l)|, input);
      }
  }

  lemma {:induction false} MarkLeafAtSetsThatFlag(e: JitExpression, p: nat, input: nat)
    requires p < |Preorder(e)|
    ensures (LoadFlagsLength(e); LoadFlags(MarkLeafAt(e, p, input)) == LoadFlags(e)[p := (true, input)])
  {
    LoadFlagsLength(e);
    match e
    case ColumnLeaf(_, _, _) =>
    case UnaryNode(c, _, _) =>
      MarkLeafAtSetsThatFlag(c, p, input);
    case BinaryNode(l, _, r, _) =>
      LoadFlagsLength(l);
      if p < |Preorder(l)| {
        MarkLeafAtSetsThatFlag(l, p, input);
      } else {
        MarkLeafAtSetsThatFlag(r, p - |Preorder(l)|, input);
      }
  }

  /** Where the first leaf with tuple index `k` sits in preorder. */
  function FirstPosition(s: seq<nat>, k: nat): (p: nat)
    requires k in s
    ensures p < |s| && s[p] == k && k !in s[..p]
  {
    if s[0] == k then 0 else assert s == [s[0]] + s[1..]; 1 + FirstPosition(s[1..], k)
  }

  /**
   * `set_load_column`: walks the expression on an explicit stack and marks the first leaf whose
   * tuple index is `tupleId`; without such a leaf the expression is returned unchanged.
   */
  method SetLoadColumn(e: JitExpression, tupleId: nat, input: nat) returns (marked: JitExpression)
    ensures tupleId in Leaves(e) ==> marked == MarkLeafAt(e, FirstPosition(Preorder(e), tupleId), input)
    ensures tupleId !in Leaves(e) ==> marked == e
  {
    var stack := [e];
    var position := 0;
    assert StackOrder(stack) == Preorder(e) by {
      assert stack[..0] == [];
    }
    while |stack| > 0
      invariant position <= |Preorder(e)| && Preorder(e)[position..] == StackOrder(stack)
      invariant tupleId !in Preorder(e)[..position]
      decreases StackSize(stack)
    {
      PopPush(stack);
      var current := stack[|stack| - 1];
      stack := PushChildren(stack[..|stack| - 1], current);
      if current.ColumnLeaf? {
        assert Preorder(e)[position] == current.result.tupleIndex;
        if current.result.tupleIndex == tupleId {
          assert FirstPosition(Preorder(e), tupleId) == position;
          return MarkLeafAt(e, position, input);
        }
        assert Preorder(e)[..position + 1] == Preorder(e)[..position] + [current.result.tupleIndex];
        position := position + 1;
      }
    }
    assert Preorder(e)[..position] == Preorder(e);
    return e;
  }

  // ---------------------------------------------------------------------------------------------
  // compute and compute_and_get agree

  /**
   * Every inner node owns its result slot: no other inner node writes it and no leaf reads it, as
   * when each inner node is given a fresh tuple index.
   */
  ghost predicate SeparateSlots(e: JitExpression)
  {
    match e
    case ColumnLeaf(_, _, _) => true
    case UnaryNode(c, _, res) =>
      SeparateSlots(c) && res.tupleIndex !in Writes(c) + Leaves(c)
    case BinaryNode(l, _, r, res) =>
      && SeparateSlots(l) && SeparateSlots(r)
      && res.tupleIndex !in Writes(l) + Writes(r) + Leaves(l) + Leaves(r)
      && Writes(l) !! Writes(r) + Leaves(r) && Writes(r) !! Leaves(l)
  }

  /** No leaf has data type `Null`. */
  predicate TypedLeaves(e: JitExpression)
  {
    match e
    case ColumnLeaf(res, _, _) => res.dataType != Null
    case UnaryNode(c, _, _) => TypedLeaves(c)
    case BinaryNode(l, _, r, _) => TypedLeaves(l) && TypedLeaves(r)
  }

  lemma {:induction false} ResultSlotIsOwned(e: JitExpression)
    ensures e.result.tupleIndex in (if e.ColumnLeaf? then Leaves(e) else Writes(e))
  {
  }

  /** `compute_and_get` reads nothing but the leaves' slots. */
  lemma {:induction false} ComputeAndGetReadsLeaves(e: JitExpression, t: seq<Slot>, u: seq<Slot>, ops: Ops)
    requires Shaped(e) && InBounds(e, |t|) && |t| == |u|
    requires forall k :: k in Leaves(e) && k < |t| ==> t[k] == u[k]
    ensures ComputeAndGet(e, t, ops) == ComputeAndGet(e, u, ops)
    decreases e
  {
    match e
    case ColumnLeaf(_, _, _) =>
    case UnaryNode(c, _, _) =>
      ComputeAndGetReadsLeaves(c, t, u, ops);
    case BinaryNode(l, _, r, _) =>
      ComputeAndGetReadsLeaves(l, t, u, ops);
      ComputeAndGetReadsLeaves(r, t, u, ops);
  }

  /** Under strict operations a node's result can be NULL only if its result type is nullable. */
  lemma StrictResultNullable(t: JitExpressionType, left: JitTupleValue, right: JitTupleValue, res: JitTupleValue, a: Slot, b: Slot, ops: Ops)
    requires Strict(ops)
    requires left.isNullable || right.isNullable ==> res.isNullable
    requires (a.isNull ==> left.isNullable) && (b.isNull ==> right.isNullable)
    ensures (ops.binary(t, true, a, b).isNull ==> res.isNullable) && (ops.binary(t, false, a, b).isNull ==> res.isNullable)
    ensures ops.logical(t, false, a, b).isNull ==> res.isNullable
  {
  }

  /**
   * Computing the left operand leaves the right operand's leaves alone, and computing the right
   * operand leaves the left operand's result alone.
   */
  lemma OperandsStayPut(l: JitExpression, r: JitExpression, res: JitTupleValue, t: OperatorType, tuple: seq<Slot>, ops: Ops)
    requires Shaped(BinaryNode(l, t, r, res)) && InBounds(BinaryNode(l, t, r, res), |tuple|) && SeparateSlots(BinaryNode(l, t, r, res))
    requires ComputeTuple(l, tuple, ops, false).Success?
    requires ComputeTuple(r, ComputeTuple(l, tuple, ops, false).value, ops, false).Success?
    ensures var t1 := ComputeTuple(l, tuple, ops, false).value;
      && ComputeAndGet(r, tuple, ops) == ComputeAndGet(r, t1, ops)
      && Read(l.result, ComputeTuple(r, t1, ops, false).value) == Read(l.result, t1)
  {
    var t1 := ComputeTuple(l, tuple, ops, false).value;
    forall k | k in Leaves(r) && k < |tuple|
      ensures t1[k] == tuple[k]
    {
      ComputeWritesOnlyResults(l, tuple, ops, false, k);
    }
    ComputeAndGetReadsLeaves(r, tuple, t1, ops);
    ResultSlotIsOwned(l);
    ComputeWritesOnlyResults(r, t1, ops, false, l.result.tupleIndex);
  }

  /** The two-child step of `ComputeAndGetAgreesWithCompute`, given agreement on both operands. */
  lemma BinaryAgrees(l: JitExpression, t: OperatorType, r: JitExpression, res: JitTupleValue, tuple: seq<Slot>, ops: Ops, t2: seq<Slot>)
    requires IsBinary(t)
    requires Shaped(BinaryNode(l, t, r, res)) && InBounds(BinaryNode(l, t, r, res), |tuple|)
    requires ComputeTuple(BinaryNode(l, t, r, res), tuple, ops, false).Success?
    requires ComputeAndGet(BinaryNode(l, t, r, res), tuple, ops).Success?
    requires ComputeTuple(l, tuple, ops, false).Success?
    requires ComputeTuple(r, ComputeTuple(l, tuple, ops, false).value, ops, false) == Success(t2)
    requires ComputeAndGet(l, tuple, ops) == Success(Read(l.result, t2))
    requires ComputeAndGet(r, tuple, ops) == Success(Read(r.result, t2))
    requires GetSwitch(t, l.result.dataType == String, Read(l.result, t2), Read(r.result, t2), ops).isNull ==> res.isNullable
    ensures ComputeAndGet(BinaryNode(l, t, r, res), tuple, ops).value
         == Read(res, ComputeTuple(BinaryNode(l, t, r, res), tuple, ops, false).value)
  {
    var a, b := Read(l.result, t2), Read(r.result, t2);
    SwitchesAgree(t, l.result.dataType == String, a, b, ops);
  }

  /**
   * Without pruning, `compute_and_get` yields exactly what `compute` leaves in the expression's result
   * slot, whenever both succeed: on well-typed expressions with strict operations, separate result
   * slots and no NULL-typed leaves.
   */
  lemma {:induction false} ComputeAndGetAgreesWithCompute(e: JitExpression, tuple: seq<Slot>, ops: Ops)
    requires Shaped(e) && InBounds(e, |tuple|) && NullabilityFlows(e) && Strict(ops)
    requires SeparateSlots(e) && TypedLeaves(e)
    requires ComputeTuple(e, tuple, ops, false).Success? && ComputeAndGet(e, tuple, ops).Success?
    ensures ComputeAndGet(e, tuple, ops).value == Read(e.result, ComputeTuple(e, tuple, ops, false).value)
    decreases e, 1
  {
    match e
    case ColumnLeaf(_, _, _) =>
    case UnaryNode(c, t, res) =>
      ComputeAndGetAgreesWithCompute(c, tuple, ops);
    case BinaryNode(l, t, r, res) =>
      BinaryComputeAndGetAgrees(l, t, r, res, tuple, ops);
  }

  /** A successful `compute` of a two-child node of a binary type without pruning computed both operands. */
  lemma UnfoldComputeBinary(l: JitExpression, t: OperatorType, r: JitExpression, res: JitTupleValue, tuple: seq<Slot>, ops: Ops)
    requires IsBinary(t)
    requires Shaped(BinaryNode(l, t, r, res)) && InBounds(BinaryNode(l, t, r, res), |tuple|)
    requires ComputeTuple(BinaryNode(l, t, r, res), tuple, ops, false).Success?
    ensures ComputeTuple(l, tuple, ops, false).Success?
    ensures ComputeTuple(r, ComputeTuple(l, tuple, ops, false).value, ops, false).Success?
  {
  }

  /** A successful `compute_and_get` of a two-child node of a binary type got both operands. */
  lemma UnfoldGetBinary(l: JitExpression, t: OperatorType, r: JitExpression, res: JitTupleValue, tuple: seq<Slot>, ops: Ops)
    requires IsBinary(t)
    requires Shaped(BinaryNode(l, t, r, res)) && InBounds(BinaryNode(l, t, r, res), |tuple|)
    requires ComputeAndGet(BinaryNode(l, t, r, res), tuple, ops).Success?
    ensures ComputeAndGet(l, tuple, ops).Success? && ComputeAndGet(r, tuple, ops).Success?
  {
  }

  /** The two-child case of `ComputeAndGetAgreesWithCompute`. */
  lemma {:induction false} BinaryComputeAndGetAgrees(l: JitExpression, t: OperatorType, r: JitExpression, res: JitTupleValue, tuple: seq<Slot>, ops: Ops)
    requires var e := BinaryNode(l, t, r, res);
      && Shaped(e) && InBounds(e, |tuple|) && NullabilityFlows(e) && Strict(ops) && SeparateSlots(e) && TypedLeaves(e)
      && ComputeTuple(e, tuple, ops, false).Success? && ComputeAndGet(e, tuple, ops).Success?
    ensures ComputeAndGet(BinaryNode(l, t, r, res), tuple, ops).value
         == Read(res, ComputeTuple(BinaryNode(l, t, r, res), tuple, ops, false).value)
    decreases BinaryNode(l, t, r, res), 0
  {
    if !IsBinary(t) {
      ComputeAndGetAgreesWithCompute(l, tuple, ops);
      return;
    }
    UnfoldComputeBinary(l, t, r, res, tuple, ops);
    UnfoldGetBinary(l, t, r, res, tuple, ops);
    var t1 := ComputeTuple(l, tuple, ops, false).value;
    ComputeAndGetAgreesWithCompute(l, tuple, ops);
    OperandsStayPut(l, r, res, t, tuple, ops);
    ComputeAndGetAgreesWithCompute(r, t1, ops);
    var t2 := ComputeTuple(r, t1, ops, false).value;
    StrictResultNullable(t, l.result, r.result, res, Read(l.result, t2), Read(r.result, t2), ops);
    BinaryAgrees(l, t, r, res, tuple, ops, t2);
  }
}
