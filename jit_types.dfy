/**
 * The vocabulary shared by the JIT operators: data types, the values an `AllTypeVariant` holds, the
 * expression types of JIT expressions, tuple values (typed slots of the runtime tuple) and the
 * runtime context the operators of a chain pass along.
 *
 * `jit_types.hpp` is not part of this model; what the operators need from it is stated here:
 * value ids are 32-bit signed integers of data type `Int`, the JIT keeps booleans in slots of data
 * type `Bool`, and `jit_expression_is_binary` holds for every expression type other than `Column`,
 * `Not`, `IsNull` and `IsNotNull`.
 */
module JitTypes {
  import opened PosLists

  datatype DataType = Null | Int | Long | Float | Double | String | Bool

  /** The data type of value-id slots (`DataTypeValueID`). */
  const DataTypeValueID: DataType := Int

  /** The data type of boolean slots (`DataTypeBool`). */
  const DataTypeBool: DataType := Bool

  /** `std::numeric_limits<JitValueID>::max()` for a 32-bit signed `JitValueID`. */
  const MAX_JIT_VALUE_ID: nat := 0x7FFF_FFFF

  /** `INVALID_VALUE_ID`: the largest 32-bit unsigned `ValueID`. */
  const INVALID_VALUE_ID: nat := 0xFFFF_FFFF

  /** `std::numeric_limits<ChunkOffset>::max()` for the 32-bit `ChunkOffset`. */
  const MAX_CHUNK_OFFSET: nat := 0xFFFF_FFFF

  /** An `AllTypeVariant`: NULL or a value of one of the data types. */
  datatype Variant =
    | NullValue
    | IntValue(i: int)
    | LongValue(l: int)
    | FloatValue(f: real)
    | DoubleValue(d: real)
    | StringValue(s: string)
    | BoolValue(b: bool)

  /** `data_type_from_all_type_variant`. */
  function TypeOf(v: Variant): (t: DataType)
    ensures t == Null <==> v.NullValue?
  {
    match v
    case NullValue => Null
    case IntValue(_) => Int
    case LongValue(_) => Long
    case FloatValue(_) => Float
    case DoubleValue(_) => Double
    case StringValue(_) => String
    case BoolValue(_) => Bool
  }

  datatype JitExpressionType =
    | Column
    | Addition | Subtraction | Multiplication | Division | Modulo | Power
    | Equals | NotEquals | GreaterThan | GreaterThanEquals | LessThan | LessThanEquals
    | Like | NotLike
    | And | Or
    | Not | IsNull | IsNotNull

  /** `jit_expression_is_binary`. */
  predicate IsBinary(t: JitExpressionType)
  {
    !(t == Column || t == Not || t == IsNull || t == IsNotNull)
  }

  predicate IsArithmetic(t: JitExpressionType)
  {
    t == Addition || t == Subtraction || t == Multiplication || t == Division || t == Modulo || t == Power
  }

  predicate IsComparison(t: JitExpressionType)
  {
    t == Equals || t == NotEquals || t == GreaterThan || t == GreaterThanEquals || t == LessThan || t == LessThanEquals
  }

  /** The operator types of inner expression nodes: only leaves have type `Column`. */
  type OperatorType = t: JitExpressionType | t != Column witness Addition

  /** A `JitTupleValue`: a typed, possibly nullable slot of the runtime tuple. */
  datatype JitTupleValue = JitTupleValue(dataType: DataType, isNullable: bool, tupleIndex: nat)

  /** A slot of the runtime tuple: its value and its null flag. */
  datatype Slot = Slot(value: Variant, isNull: bool)

  /** A value-initialised slot, as `std::vector::resize` creates. */
  const DefaultSlot := Slot(NullValue, false)

  /** `JitTupleValue::is_null`: only a nullable tuple value can read as NULL. */
  function TupleIsNull(tv: JitTupleValue, tuple: seq<Slot>): bool
    requires tv.tupleIndex < |tuple|
  {
    tv.isNullable && tuple[tv.tupleIndex].isNull
  }

  /**
   * The `JitRuntimeContext` of one execution: the runtime tuple, the position in the current input
   * chunk, the remaining LIMIT and the position list the writer appends to.
   */
  class JitRuntimeContext {
    var tuple: seq<Slot>
    var chunkId: nat
    var chunkOffset: nat
    var chunkSize: nat
    var limitRows: int
    var outputPosList: PosList

    constructor ()
      ensures tuple == [] && chunkId == 0 && chunkOffset == 0 && chunkSize == 0 && limitRows == 0
      ensures fresh(outputPosList) && outputPosList.rows == []
    {
      tuple := [];
      chunkId := 0;
      chunkOffset := 0;
      chunkSize := 0;
      limitRows := 0;
      outputPosList := new PosList();
    }
  }
}
