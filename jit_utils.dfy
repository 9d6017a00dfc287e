/** `swap_expression_type` and the early returns of `cast_all_type_variant_to_type`. */
module JitUtils {
  import opened Wrappers
  import opened JitTypes

  /**
   * `swap_expression_type`: each ordering comparison is exchanged with its negation
   * (`>` with `<=`, `>=` with `<`); every other expression type is returned unchanged.
   */
  function SwapExpressionType(t: JitExpressionType): (r: JitExpressionType)
    ensures IsComparison(t) <==> IsComparison(r)
    ensures !(t == GreaterThan || t == GreaterThanEquals || t == LessThan || t == LessThanEquals) ==> r == t
  {
    match t
    case GreaterThan => LessThanEquals
    case GreaterThanEquals => LessThan
    case LessThan => GreaterThanEquals
    case LessThanEquals => GreaterThan
    case _ => t
  }

  /** What a comparison type says about two integers. */
  function Holds(t: JitExpressionType, a: int, b: int): bool
    requires IsComparison(t)
  {
    match t
    case Equals => a == b
    case NotEquals => a != b
    case GreaterThan => a > b
    case GreaterThanEquals => a >= b
    case LessThan => a < b
    case LessThanEquals => a <= b
  }

  /** Swapping twice gives the original type back. */
  lemma SwapIsInvolution(t: JitExpressionType)
    ensures SwapExpressionType(SwapExpressionType(t)) == t
  {
  }

  /** On ordering comparisons the swapped type is the negation, for every pair of operands. */
  lemma SwapNegatesOrderings(t: JitExpressionType, a: int, b: int)
    requires t == GreaterThan || t == GreaterThanEquals || t == LessThan || t == LessThanEquals
    ensures Holds(SwapExpressionType(t), a, b) == !Holds(t, a, b)
  {
  }

  /**
   * `cast_all_type_variant_to_type`. A target type of `Null` gives NULL, a value already of the
   * target type is returned as it is, NULL cannot be converted, a string cannot become a number;
   * the remaining scalar conversions are the implicit C++ conversions and `std::to_string`, which
   * `convert` stands for.
   */
  function CastAllTypeVariantToType(v: Variant, target: DataType, convert: (Variant, DataType) -> Variant): (r: Result<Variant>)
    ensures target == Null ==> r == Success(NullValue)
    ensures target != Null && TypeOf(v) == target ==> r == Success(v)
    ensures target != Null && TypeOf(v) != target && (v.NullValue? || v.StringValue?) ==> r.Failure?
    ensures r.Success? && target != Null && TypeOf(v) != target ==> r.value == convert(v, target)
  {
    if target == Null then Success(NullValue)
    else if TypeOf(v) == target then Success(v)
    else if v.NullValue? then Failure("Cannot convert null variant")
    else if v.StringValue? then Failure("String to number conversions not supported.")
    else Success(convert(v, target))
  }
}
