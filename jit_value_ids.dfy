/**
 * Value-id predicates of `JitReadTuples`: a comparison between a dictionary-encoded column and a
 * literal or parameter is evaluated on value ids. Before each chunk the literal side is replaced by
 * a position in the chunk's sorted dictionary (`before_chunk`), and `add_value_id_predicate`
 * adjusts the comparison so that comparing value ids gives the same answer as comparing values.
 *
 * `dictionary_segment.cpp` is not part of this model: its `lower_bound` and `upper_bound` are taken
 * to return the first dictionary position whose value is not less than, respectively greater than,
 * the search value, and `INVALID_VALUE_ID` when there is none. Dictionary values are modelled by
 * their rank as integers.
 */
module JitValueIds {
  import opened Wrappers
  import opened JitTypes
  import opened JitUtils

  /** A dictionary: distinct values in ascending order. */
  predicate StrictlySorted(d: seq<int>)
  {
    forall i, j :: 0 <= i < j < |d| ==> d[i] < d[j]
  }

  /** The number of dictionary values below v, i.e. the first position whose value is at least v. */
  function FirstNotBelow(d: seq<int>, v: int): (p: nat)
    ensures p <= |d|
    ensures forall i :: 0 <= i < p ==> d[i] < v
    ensures p < |d| ==> d[p] >= v
  {
    if |d| == 0 || d[0] >= v then 0 else 1 + FirstNotBelow(d[1..], v)
  }

  /** The number of dictionary values at most v, i.e. the first position whose value exceeds v. */
  function FirstAbove(d: seq<int>, v: int): (p: nat)
    ensures p <= |d|
    ensures forall i :: 0 <= i < p ==> d[i] <= v
    ensures p < |d| ==> d[p] > v
  {
    if |d| == 0 || d[0] > v then 0 else 1 + FirstAbove(d[1..], v)
  }

  /** In a sorted dictionary the first position not below v splits it: exactly the earlier values are below v. */
  lemma FirstNotBelowSplits(d: seq<int>, v: int, k: nat)
    requires StrictlySorted(d) && k < |d|
    ensures k < FirstNotBelow(d, v) <==> d[k] < v
  {
    var p := FirstNotBelow(d, v);
    if k >= p && p < |d| {
      assert d[p] <= d[k];
    }
  }

  lemma FirstAboveSplits(d: seq<int>, v: int, k: nat)
    requires StrictlySorted(d) && k < |d|
    ensures k < FirstAbove(d, v) <==> d[k] <= v
  {
    var p := FirstAbove(d, v);
    if k >= p && p < |d| {
      assert d[p] <= d[k];
    }
  }

  /** `BaseDictionarySegment::lower_bound`. */
  function LowerBound(d: seq<int>, v: int): (id: nat)
    ensures id == INVALID_VALUE_ID || id < |d|
  {
    var p := FirstNotBelow(d, v);
    if p == |d| then INVALID_VALUE_ID else p
  }

  /** `BaseDictionarySegment::upper_bound`. */
  function UpperBound(d: seq<int>, v: int): (id: nat)
    ensures id == INVALID_VALUE_ID || id < |d|
  {
    var p := FirstAbove(d, v);
    if p == |d| then INVALID_VALUE_ID else p
  }

  /** Both bounds agree exactly when v is not in the dictionary. */
  lemma BoundsMeetIffAbsent(d: seq<int>, v: int)
    requires StrictlySorted(d) && |d| < INVALID_VALUE_ID
    ensures LowerBound(d, v) == UpperBound(d, v) <==> v !in d
  {
    var p := FirstNotBelow(d, v);
    var q := FirstAbove(d, v);
    if v in d {
      var k :| 0 <= k < |d| && d[k] == v;
      FirstNotBelowSplits(d, v, k);
      FirstAboveSplits(d, v, k);
    } else {
      if p < |d| {
        FirstAboveSplits(d, v, p);
      }
      if q < |d| {
        FirstNotBelowSplits(d, v, q);
      }
    }
  }

  /**
   * The value id `before_chunk` stores for a value-id predicate of type t and search value v: equality
   * tests use the lower bound unless v is absent, in which case they get `INVALID_VALUE_ID`; `<` and
   * `>=` use the lower bound, `<=` and `>` the upper bound; `INVALID_VALUE_ID` is stored as the
   * largest `JitValueID`, and any other id at least that large is refused.
   */
  function ValueIdFor(t: JitExpressionType, d: seq<int>, v: int): (r: Result<nat>)
    ensures !IsComparison(t) ==> r.Failure?
    ensures IsComparison(t) && |d| <= MAX_JIT_VALUE_ID ==> r.Success?
    ensures r.Success? ==> r.value <= MAX_JIT_VALUE_ID
    ensures r.Success? && |d| < INVALID_VALUE_ID && (t == LessThan || t == GreaterThanEquals) ==>
      r.value == if FirstNotBelow(d, v) == |d| then MAX_JIT_VALUE_ID else FirstNotBelow(d, v)
    ensures r.Success? && |d| < INVALID_VALUE_ID && (t == LessThanEquals || t == GreaterThan) ==>
      r.value == if FirstAbove(d, v) == |d| then MAX_JIT_VALUE_ID else FirstAbove(d, v)
  {
    var id: Option<nat> :=
      if t == Equals || t == NotEquals then
        Some(if LowerBound(d, v) == UpperBound(d, v) then INVALID_VALUE_ID else LowerBound(d, v))
      else if t == LessThan || t == GreaterThanEquals then Some(LowerBound(d, v))
      else if t == LessThanEquals || t == GreaterThan then Some(UpperBound(d, v))
      else None;
    if id.None? then Failure("Unsupported expression type for binary value id predicate")
    else if id.value == INVALID_VALUE_ID then Success(MAX_JIT_VALUE_ID)
    else if id.value >= MAX_JIT_VALUE_ID then Failure("ValueID used too high.")
    else Success(id.value)
  }

  /** Equality tests find the position of v when it is present and an id no row has when it is absent. */
  lemma EqualityIdFindsValue(t: JitExpressionType, d: seq<int>, v: int, k: nat)
    requires t == Equals || t == NotEquals
    requires StrictlySorted(d) && |d| <= MAX_JIT_VALUE_ID && k < |d|
    ensures ValueIdFor(t, d, v).Success?
    ensures ValueIdFor(t, d, v).value == k <==> d[k] == v
  {
    BoundsMeetIffAbsent(d, v);
    var p := FirstNotBelow(d, v);
    FirstNotBelowSplits(d, v, k);
    if d[k] == v {
      if k + 1 < |d| {
        FirstNotBelowSplits(d, v, k + 1);
        assert d[k] < d[k + 1];
      }
    } else if v in d {
      assert p < |d| && d[p] == v by {
        var j :| 0 <= j < |d| && d[j] == v;
        FirstNotBelowSplits(d, v, j);
      }
    }
  }

  // --- The comparison adjustment of add_value_id_predicate ---

  /**
   * The operand-swapped form of a comparison: `a op b` holds exactly when `b op' a` does. This is
   * what `add_value_id_predicate` needs when the column is the right operand.
   */
  function ConverseExpressionType(t: JitExpressionType): (r: JitExpressionType)
    ensures IsComparison(t) ==> IsComparison(r) && forall a: int, b: int :: Holds(t, a, b) == Holds(r, b, a)
    ensures !IsComparison(t) ==> r == t
  {
    match t
    case GreaterThan => LessThan
    case GreaterThanEquals => LessThanEquals
    case LessThan => GreaterThan
    case LessThanEquals => GreaterThanEquals
    case _ => t
  }

  /**
   * The predicate type stored with a value-id predicate (it selects the bound in `ValueIdFor`): the
   * comparison read with the column on the left.
   */
  function StoredType(t: JitExpressionType, swap: bool): JitExpressionType
  {
    if swap then ConverseExpressionType(t) else t
  }

  /**
   * The type the JIT expression is given, its operands staying where they are: with the column on
   * the left, `>` becomes `>=` and `<=` becomes `<` (they are compared against an upper bound); with
   * the column on the right, the same two column-first types become `<=` and `>` of the expression
   * as written.
   */
  function RewrittenType(t: JitExpressionType, swap: bool): (r: JitExpressionType)
    ensures IsComparison(t) ==> IsComparison(r)
    ensures t != Column ==> r != Column
  {
    var expression := StoredType(t, swap);
    if expression == GreaterThan then (if swap then LessThanEquals else GreaterThanEquals)
    else if expression == LessThanEquals then (if swap then GreaterThan else LessThan)
    else t
  }

  /** What the predicate means on a row: the column value `value` against the search value `v`. */
  function Original(t: JitExpressionType, swap: bool, value: int, v: int): bool
    requires IsComparison(t)
  {
    if swap then Holds(t, v, value) else Holds(t, value, v)
  }

  /** What the rewritten JIT expression computes on a row: the row's value id `k` against the stored id. */
  function OnValueIds(t: JitExpressionType, swap: bool, k: nat, id: nat): bool
    requires IsComparison(t)
  {
    if swap then Holds(t, id, k) else Holds(t, k, id)
  }

  /**
   * The adjustment is sound: for every comparison, either operand order, every sorted dictionary,
   * search value and row, comparing value ids gives the same answer as comparing the values.
   */
  lemma ValueIdPredicateSound(t: JitExpressionType, swap: bool, d: seq<int>, v: int, k: nat)
    requires IsComparison(t)
    requires StrictlySorted(d) && |d| <= MAX_JIT_VALUE_ID && k < |d|
    ensures ValueIdFor(StoredType(t, swap), d, v).Success?
    ensures OnValueIds(RewrittenType(t, swap), swap, k, ValueIdFor(StoredType(t, swap), d, v).value)
         == Original(t, swap, d[k], v)
  {
    var s := StoredType(t, swap);
    if s == Equals || s == NotEquals {
      EqualityIdFindsValue(s, d, v, k);
    } else if s == LessThan || s == GreaterThanEquals {
      FirstNotBelowSplits(d, v, k);
    } else {
      FirstAboveSplits(d, v, k);
    }
  }

  /** `add_value_id_predicate` as written: the swap goes through `swap_expression_type`. */
  function StoredTypeAsWritten(t: JitExpressionType, swap: bool): JitExpressionType
  {
    if swap then SwapExpressionType(t) else t
  }

  function RewrittenTypeAsWritten(t: JitExpressionType, swap: bool): JitExpressionType
  {
    var expression := StoredTypeAsWritten(t, swap);
    if expression == GreaterThan then (if swap then LessThan else GreaterThanEquals)
    else if expression == LessThanEquals then (if swap then GreaterThanEquals else LessThan)
    else t
  }

  /** With the column in the left operand both versions agree. */
  lemma AsWrittenAgreesUnswapped(t: JitExpressionType)
    ensures StoredTypeAsWritten(t, false) == StoredType(t, false)
    ensures RewrittenTypeAsWritten(t, false) == RewrittenType(t, false)
  {
  }

  /**
   * With the column on the right the code as written answers wrongly: for `2 > column` over the
   * dictionary [1, 3] it stores the upper bound of 2 (position 1) and evaluates `1 >= id`, which
   * lets the row holding 3 (value id 1) through although 2 > 3 is false.
   */
  lemma AsWrittenSwappedComparisonWrong()
    ensures ValueIdFor(StoredTypeAsWritten(GreaterThan, true), [1, 3], 2) == Success(1)
    ensures OnValueIds(RewrittenTypeAsWritten(GreaterThan, true), true, 1, 1)
    ensures !Original(GreaterThan, true, 3, 2)
  {
    assert FirstAbove([1, 3], 2) == 1 by {
      assert [1, 3][1..] == [3];
    }
  }
}
