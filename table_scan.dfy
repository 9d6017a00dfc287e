/**
 * The `matches` mask of one block of the vectorised scan: a 64-bit `size_t` in which bit i says
 * whether slot i of the block's buffer holds a match.
 */
module ScanBitmask {
  /**
   * `BUFFER_SIZE = 64 / sizeof(ValueID)`: with 32-bit value ids, one 512-bit register holds 16 offsets.
   */
  const BUFFER_SIZE: nat := 16

  /**
   * The shift amount for block index i (i itself, written out case by case so that the proofs about
   * the mask need no integer to bit-vector conversion).
   */
  function ShiftAmount(i: nat): bv64
    requires i < BUFFER_SIZE
  {
    if i == 0 then 0 else if i == 1 then 1 else if i == 2 then 2 else if i == 3 then 3 else if i == 4 then 4 else if i == 5 then 5 else if i == 6 then 6 else if i == 7 then 7 else if i == 8 then 8 else if i == 9 then 9 else if i == 10 then 10 else if i == 11 then 11 else if i == 12 then 12 else if i == 13 then 13 else if i == 14 then 14 else 15
  }

  lemma ShiftAmountBound(i: nat)
    requires i < BUFFER_SIZE
    ensures ShiftAmount(i) < 16
  {
  }

  /** Distinct block indices are distinct shift amounts. */
  lemma ShiftAmountInjective(i: nat, k: nat)
    requires i < BUFFER_SIZE && k < BUFFER_SIZE
    ensures ShiftAmount(i) == ShiftAmount(k) <==> i == k
  {
  }

  /** `1 << i` for a bit index of one block. */
  function Bit(i: nat): bv64
    requires i < BUFFER_SIZE
  {
    1 << ShiftAmount(i)
  }

  /** Or-ing in a shifted one sets that bit and leaves every other bit as it was. */
  lemma ShiftOr(m: bv64, a: bv64, b: bv64)
    requires a < 16 && b < 16
    ensures ((m | (1 << a)) & (1 << b) != 0) <==> (m & (1 << b) != 0 || a == b)
  {
  }

  lemma ShiftOrAt(m: bv64, i: nat, k: nat)
    requires i < BUFFER_SIZE && k < BUFFER_SIZE
    ensures ((m | (1 << ShiftAmount(i))) & (1 << ShiftAmount(k)) != 0)
      <==> (m & (1 << ShiftAmount(k)) != 0 || i == k)
  {
    ShiftAmountBound(i);
    ShiftAmountBound(k);
    ShiftOr(m, ShiftAmount(i), ShiftAmount(k));
    ShiftAmountInjective(i, k);
  }

  lemma BitOrMask(m: bv64, i: nat, k: nat)
    requires i < BUFFER_SIZE && k < BUFFER_SIZE
    ensures (m | Bit(i)) & Bit(k) != 0 <==> m & Bit(k) != 0 || i == k
  {
    ShiftOrAt(m, i, k);
  }

  /** `matches & 1 << k`: bit k of the mask is set. */
  predicate BitSet(m: bv64, k: nat)
    requires k < BUFFER_SIZE
  {
    m & Bit(k) != 0
  }

  /** `matches |= 1 << i` sets bit i of `matches` and leaves every other bit as it was. */
  lemma BitOr(m: bv64, i: nat, k: nat)
    requires i < BUFFER_SIZE && k < BUFFER_SIZE
    ensures BitSet(m | Bit(i), k) <==> BitSet(m, k) || i == k
  {
    BitOrMask(m, i, k);
  }

  /** The empty mask has no bit set. */
  lemma NoBitOfZero(k: nat)
    requires k < BUFFER_SIZE
    ensures !BitSet(0, k)
  {
  }
}

/**
 * The hot loops of the table scan: a unary filter, a filter against a constant with an optional
 * blocked (vectorisable) path that collects matches in a bitmask, and a filter over two columns walked
 * in lockstep. Each appends the matching rows of one chunk to `matches_out`.
 */
module TableScan {
  import opened PosLists
  import opened ScanBitmask

  /** What a segment iterator dereferences to: a value, whether it is NULL, and its chunk offset. */
  datatype SegmentPosition<T> = SegmentPosition(value: T, isNull: bool, chunkOffset: nat)

  /** The rows of `ps` that `keep` accepts, as `RowID`s of chunk `chunkId`, in input order. */
  function Select<T>(keep: SegmentPosition<T> -> bool, ps: seq<SegmentPosition<T>>, chunkId: nat): (r: seq<RowID>)
    ensures |r| <= |ps|
    ensures forall k :: 0 <= k < |r| ==> r[k].chunkId == chunkId
  {
    if |ps| == 0 then []
    else
      var last := ps[|ps| - 1];
      Select(keep, ps[..|ps| - 1], chunkId) + (if keep(last) then [RowID(chunkId, last.chunkOffset)] else [])
  }

  /** `_unary_scan`'s test: the element is not NULL and satisfies `func`. */
  function UnaryKeep<T>(func: T -> bool): SegmentPosition<T> -> bool
  {
    (p: SegmentPosition<T>) => !p.isNull && func(p.value)
  }

  /** `_unary_scan_with_value`'s test: NULLs are rejected only when the column is nullable. */
  function ValueKeep<T, R>(func: (T, R) -> bool, rightValue: R, leftIsNullable: bool): SegmentPosition<T> -> bool
  {
    (p: SegmentPosition<T>) => (!leftIsNullable || !p.isNull) && func(p.value, rightValue)
  }

  /**
   * Two iterators walked in lockstep, read as one iterator over pairs: a pair is NULL when either
   * side is, and carries the left side's chunk offset.
   */
  function Pairs<T, R>(left: seq<SegmentPosition<T>>, right: seq<SegmentPosition<R>>): (r: seq<SegmentPosition<(T, R)>>)
    requires |left| <= |right|
    ensures |r| == |left|
    ensures forall k :: 0 <= k < |left| ==>
      r[k] == SegmentPosition((left[k].value, right[k].value), left[k].isNull || right[k].isNull, left[k].chunkOffset)
  {
    seq(|left|, k requires 0 <= k < |left| =>
      SegmentPosition((left[k].value, right[k].value), left[k].isNull || right[k].isNull, left[k].chunkOffset))
  }

  /** `_binary_scan`'s test on a pair. */
  function BinaryKeep<T, R>(func: (T, R) -> bool): SegmentPosition<(T, R)> -> bool
  {
    (p: SegmentPosition<(T, R)>) => !p.isNull && func(p.value.0, p.value.1)
  }

  /** Filtering a concatenation filters each part. */
  lemma {:induction false} SelectAppend<T>(keep: SegmentPosition<T> -> bool, a: seq<SegmentPosition<T>>,
                                           b: seq<SegmentPosition<T>>, chunkId: nat)
    ensures Select(keep, a + b, chunkId) == Select(keep, a, chunkId) + Select(keep, b, chunkId)
    decreases |b|
  {
    if |b| == 0 {
      assert a + b == a;
    } else {
      assert (a + b)[..|a + b| - 1] == a + b[..|b| - 1];
      SelectAppend(keep, a, b[..|b| - 1], chunkId);
    }
  }

  /** The rows of a longer prefix are the rows of a shorter one followed by those of the slice between. */
  lemma SelectPrefixSplit<T>(keep: SegmentPosition<T> -> bool, ps: seq<SegmentPosition<T>>, i: nat, j: nat, chunkId: nat)
    requires i <= j <= |ps|
    ensures Select(keep, ps[..j], chunkId) == Select(keep, ps[..i], chunkId) + Select(keep, ps[i..j], chunkId)
  {
    assert ps[..j] == ps[..i] + ps[i..j];
    SelectAppend(keep, ps[..i], ps[i..j], chunkId);
  }

  /** One more element of the input adds its row exactly when it is kept. */
  lemma SelectExtend<T>(keep: SegmentPosition<T> -> bool, ps: seq<SegmentPosition<T>>, i: nat, chunkId: nat)
    requires i < |ps|
    ensures Select(keep, ps[..i + 1], chunkId)
      == Select(keep, ps[..i], chunkId) + (if keep(ps[i]) then [RowID(chunkId, ps[i].chunkOffset)] else [])
  {
    assert ps[..i + 1][..i] == ps[..i];
  }

  /**
   * A row is emitted exactly when some element at that offset is kept: nothing is lost and nothing
   * is invented.
   */
  lemma {:induction false} SelectMembership<T>(keep: SegmentPosition<T> -> bool, ps: seq<SegmentPosition<T>>,
                                               chunkId: nat, offset: nat)
    ensures RowID(chunkId, offset) in Select(keep, ps, chunkId)
      <==> exists j :: 0 <= j < |ps| && ps[j].chunkOffset == offset && keep(ps[j])
    decreases |ps|
  {
    if |ps| > 0 {
      var init := ps[..|ps| - 1];
      SelectMembership(keep, init, chunkId, offset);
      if exists j :: 0 <= j < |init| && init[j].chunkOffset == offset && keep(init[j]) {
        var j :| 0 <= j < |init| && init[j].chunkOffset == offset && keep(init[j]);
        assert ps[j] == init[j];
      }
      if exists j :: 0 <= j < |ps| && ps[j].chunkOffset == offset && keep(ps[j]) {
        var j :| 0 <= j < |ps| && ps[j].chunkOffset == offset && keep(ps[j]);
        if j < |init| {
          assert init[j] == ps[j];
        }
      }
    }
  }

  /** Every element kept yields a row: with all elements kept, every offset is emitted in order. */
  lemma {:induction false} SelectKeepsAll<T>(keep: SegmentPosition<T> -> bool, ps: seq<SegmentPosition<T>>, chunkId: nat)
    requires forall j :: 0 <= j < |ps| ==> keep(ps[j])
    ensures |Select(keep, ps, chunkId)| == |ps|
    ensures forall j :: 0 <= j < |ps| ==> Select(keep, ps, chunkId)[j] == RowID(chunkId, ps[j].chunkOffset)
    decreases |ps|
  {
    if |ps| > 0 {
      SelectKeepsAll(keep, ps[..|ps| - 1], chunkId);
    }
  }

  /** `_unary_scan` never emits a NULL element, whatever `func` says about its value. */
  lemma UnaryScanSkipsNulls<T>(func: T -> bool, ps: seq<SegmentPosition<T>>, chunkId: nat, j: nat)
    requires j < |ps| && ps[j].isNull
    requires forall k :: 0 <= k < |ps| && k != j ==> ps[k].chunkOffset != ps[j].chunkOffset
    ensures RowID(chunkId, ps[j].chunkOffset) !in Select(UnaryKeep(func), ps, chunkId)
  {
    SelectMembership(UnaryKeep(func), ps, chunkId, ps[j].chunkOffset);
  }

  /** Without `LeftIsNullable` the NULL flag is not consulted: a NULL element whose value matches is emitted. */
  lemma NonNullableScanKeepsNullFlaggedRows<T, R>(func: (T, R) -> bool, rightValue: R, ps: seq<SegmentPosition<T>>,
                                                 chunkId: nat, j: nat)
    requires j < |ps| && ps[j].isNull && func(ps[j].value, rightValue)
    ensures RowID(chunkId, ps[j].chunkOffset) in Select(ValueKeep(func, rightValue, false), ps, chunkId)
    ensures RowID(chunkId, ps[j].chunkOffset) !in Select(ValueKeep(func, rightValue, true), ps, chunkId)
      || exists k :: 0 <= k < |ps| && k != j && ps[k].chunkOffset == ps[j].chunkOffset
  {
    SelectMembership(ValueKeep(func, rightValue, false), ps, chunkId, ps[j].chunkOffset);
    SelectMembership(ValueKeep(func, rightValue, true), ps, chunkId, ps[j].chunkOffset);
  }

  /**
   * How many elements the blocked path consumes: whole blocks while strictly more than `BUFFER_SIZE`
   * elements remain. The remainder loop therefore always gets between 1 and `BUFFER_SIZE` elements of a
   * nonempty input, even when the input is an exact multiple of the block size.
   */
  function BlockedLength(n: nat): (r: nat)
    ensures r % BUFFER_SIZE == 0 && r <= n
    ensures n > 0 ==> 0 < n - r <= BUFFER_SIZE
  {
    if n == 0 then 0 else BUFFER_SIZE * ((n - 1) / BUFFER_SIZE)
  }

  /** `_unary_scan`: appends the non-NULL elements that satisfy `func`, in input order. */
  method UnaryScan<T>(func: T -> bool, positions: seq<SegmentPosition<T>>, chunkId: nat, matchesOut: PosList)
    modifies matchesOut
    ensures matchesOut.rows == old(matchesOut.rows) + Select(UnaryKeep(func), positions, chunkId)
  {
    var i := 0;
    while i < |positions|
      invariant i <= |positions|
      invariant matchesOut.rows == old(matchesOut.rows) + Select(UnaryKeep(func), positions[..i], chunkId)
    {
      var left := positions[i];
      SelectExtend(UnaryKeep(func), positions, i, chunkId);
      if !left.isNull && func(left.value) {
        matchesOut.Append(RowID(chunkId, left.chunkOffset));
      }
      i := i + 1;
    }
    assert positions[..i] == positions;
  }

  /**
   * One block of the vectorised path: `matches` gets bit k set exactly for the kept elements of the
   * block, and `buffer[k]` then holds that element's chunk offset.
   */
  method FillBlock<T>(keep: SegmentPosition<T> -> bool, block: seq<SegmentPosition<T>>)
    returns (buffer: array<nat>, matches: bv64)
    requires |block| == BUFFER_SIZE
    ensures fresh(buffer) && buffer.Length == BUFFER_SIZE
    ensures forall k :: 0 <= k < BUFFER_SIZE ==> (BitSet(matches, k) <==> keep(block[k]))
    ensures forall k :: 0 <= k < BUFFER_SIZE && keep(block[k]) ==> buffer[k] == block[k].chunkOffset
  {
    buffer := new nat[BUFFER_SIZE];
    matches := 0;
    var i := 0;
    while i < BUFFER_SIZE
      invariant i <= BUFFER_SIZE
      invariant forall k :: 0 <= k < BUFFER_SIZE ==> (BitSet(matches, k) <==> k < i && keep(block[k]))
      invariant forall k :: 0 <= k < i && keep(block[k]) ==> buffer[k] == block[k].chunkOffset
    {
      if keep(block[i]) {
        buffer[i] := block[i].chunkOffset;
        forall k | 0 <= k < BUFFER_SIZE
          ensures BitSet(matches | Bit(i), k) <==> k < i + 1 && keep(block[k])
        {
          BitOr(matches, i, k);
        }
        matches := matches | Bit(i);
        assert forall k :: 0 <= k < BUFFER_SIZE ==> (BitSet(matches, k) <==> k < i + 1 && keep(block[k]));
      } else {
        assert forall k :: 0 <= k < BUFFER_SIZE ==> (BitSet(matches, k) <==> k < i + 1 && keep(block[k]));
      }
      i := i + 1;
    }
  }

  /** The copy-out of one block: the set bits of `matches`, in index order. */
  method CopyBlock<T>(keep: SegmentPosition<T> -> bool, block: seq<SegmentPosition<T>>, buffer: array<nat>,
                      matches: bv64, chunkId: nat, matchesOut: PosList)
    requires |block| == BUFFER_SIZE && buffer.Length == BUFFER_SIZE
    requires forall k :: 0 <= k < BUFFER_SIZE ==> (BitSet(matches, k) <==> keep(block[k]))
    requires forall k :: 0 <= k < BUFFER_SIZE && keep(block[k]) ==> buffer[k] == block[k].chunkOffset
    modifies matchesOut
    ensures matchesOut.rows == old(matchesOut.rows) + Select(keep, block, chunkId)
  {
    if matches != 0 {
      CopyMatches(keep, block, buffer, matches, chunkId, matchesOut);
    } else {
      EmptyMaskKeepsNothing(keep, block, chunkId);
    }
  }

  /** The loop over the slots of a block with some bit set. */
  method CopyMatches<T>(keep: SegmentPosition<T> -> bool, block: seq<SegmentPosition<T>>, buffer: array<nat>,
                        matches: bv64, chunkId: nat, matchesOut: PosList)
    requires |block| <= BUFFER_SIZE && buffer.Length == |block|
    requires forall k :: 0 <= k < |block| ==> (BitSet(matches, k) <==> keep(block[k]))
    requires forall k :: 0 <= k < |block| && keep(block[k]) ==> buffer[k] == block[k].chunkOffset
    modifies matchesOut
    ensures matchesOut.rows == old(matchesOut.rows) + Select(keep, block, chunkId)
  {
    var i := 0;
    while i < |block|
      invariant i <= |block|
      invariant matchesOut.rows == old(matchesOut.rows) + Select(keep, block[..i], chunkId)
    {
      CopySlot(keep, block, buffer, matches, i, chunkId, matchesOut);
      i := i + 1;
    }
    assert block[..i] == block;
  }

  /** One step of the copy-out: slot i is appended exactly when its bit is set. */
  method CopySlot<T>(keep: SegmentPosition<T> -> bool, block: seq<SegmentPosition<T>>, buffer: array<nat>,
                     matches: bv64, i: nat, chunkId: nat, matchesOut: PosList)
    requires |block| <= BUFFER_SIZE && buffer.Length == |block| && i < |block|
    requires BitSet(matches, i) <==> keep(block[i])
    requires keep(block[i]) ==> buffer[i] == block[i].chunkOffset
    modifies matchesOut
    ensures Select(keep, block[..i + 1], chunkId)
      == Select(keep, block[..i], chunkId) + (if keep(block[i]) then [RowID(chunkId, block[i].chunkOffset)] else [])
    ensures matchesOut.rows == old(matchesOut.rows) + (if keep(block[i]) then [RowID(chunkId, block[i].chunkOffset)] else [])
  {
    SelectExtend(keep, block, i, chunkId);
    if BitSet(matches, i) {
      matchesOut.Append(RowID(chunkId, buffer[i]));
    }
  }

  /** A block whose mask is zero contributes no row. */
  lemma EmptyMaskKeepsNothing<T>(keep: SegmentPosition<T> -> bool, block: seq<SegmentPosition<T>>, chunkId: nat)
    requires |block| == BUFFER_SIZE
    requires forall k :: 0 <= k < BUFFER_SIZE ==> (BitSet(0, k) <==> keep(block[k]))
    ensures Select(keep, block, chunkId) == []
  {
    forall k | 0 <= k < BUFFER_SIZE
      ensures !keep(block[k])
    {
      NoBitOfZero(k);
    }
    SelectNoneKept(keep, block, chunkId);
  }

  /** Nothing kept, nothing emitted. */
  lemma {:induction false} SelectNoneKept<T>(keep: SegmentPosition<T> -> bool, ps: seq<SegmentPosition<T>>, chunkId: nat)
    requires forall j :: 0 <= j < |ps| ==> !keep(ps[j])
    ensures Select(keep, ps, chunkId) == []
    decreases |ps|
  {
    if |ps| > 0 {
      SelectNoneKept(keep, ps[..|ps| - 1], chunkId);
    }
  }

  /** Two distinct multiples of the block size are at least one block apart. */
  lemma BlocksApart(a: nat, b: nat)
    requires a % BUFFER_SIZE == 0 && b % BUFFER_SIZE == 0 && a < b
    ensures a + BUFFER_SIZE <= b
  {
    var qa, qb := a / BUFFER_SIZE, b / BUFFER_SIZE;
    assert a == BUFFER_SIZE * qa && b == BUFFER_SIZE * qb;
    assert qa < qb;
  }

  /**
   * The blocked path of `_unary_scan_with_value`: whole blocks while strictly more than `BUFFER_SIZE`
   * elements remain. Returns how many elements it consumed.
   */
  method ScanBlocks<T>(keep: SegmentPosition<T> -> bool, positions: seq<SegmentPosition<T>>, chunkId: nat,
                       matchesOut: PosList)
    returns (consumed: nat)
    modifies matchesOut
    ensures consumed == BlockedLength(|positions|)
    ensures matchesOut.rows == old(matchesOut.rows) + Select(keep, positions[..consumed], chunkId)
  {
    var n := |positions|;
    consumed := 0;
    while n - consumed > BUFFER_SIZE
      invariant consumed <= n && consumed % BUFFER_SIZE == 0
      invariant n > 0 ==> consumed <= BlockedLength(n)
      invariant matchesOut.rows == old(matchesOut.rows) + Select(keep, positions[..consumed], chunkId)
    {
      BlocksApart(consumed, BlockedLength(n));
      var block := positions[consumed..consumed + BUFFER_SIZE];
      var buffer, matches := FillBlock(keep, block);
      CopyBlock(keep, block, buffer, matches, chunkId, matchesOut);
      SelectPrefixSplit(keep, positions, consumed, consumed + BUFFER_SIZE, chunkId);
      consumed := consumed + BUFFER_SIZE;
    }
    if n > 0 && consumed < BlockedLength(n) {
      BlocksApart(consumed, BlockedLength(n));
    }
  }

  /**
   * `_unary_scan_with_value`: whether or not the blocked path runs (`vectorizable`), the rows appended
   * are exactly those of the plain remainder loop over the whole input. The ghost result is where the
   * remainder loop starts.
   */
  method UnaryScanWithValue<T, R>(leftIsNullable: bool, vectorizable: bool, func: (T, R) -> bool,
                                  positions: seq<SegmentPosition<T>>, rightValue: R, chunkId: nat,
                                  matchesOut: PosList)
    returns (ghost remainderStart: nat)
    modifies matchesOut
    ensures matchesOut.rows == old(matchesOut.rows) + Select(ValueKeep(func, rightValue, leftIsNullable), positions, chunkId)
    ensures remainderStart == if vectorizable then BlockedLength(|positions|) else 0
  {
    var keep := ValueKeep(func, rightValue, leftIsNullable);
    var i := 0;
    if vectorizable {
      i := ScanBlocks(keep, positions, chunkId, matchesOut);
    } else {
      assert positions[..0] == [];
    }
    remainderStart := i;
    while i < |positions|
      invariant remainderStart <= i <= |positions|
      invariant matchesOut.rows == old(matchesOut.rows) + Select(keep, positions[..i], chunkId)
    {
      var left := positions[i];
      SelectExtend(keep, positions, i, chunkId);
      if (!leftIsNullable || !left.isNull) && func(left.value, rightValue) {
        matchesOut.Append(RowID(chunkId, left.chunkOffset));
      }
      i := i + 1;
    }
    assert positions[..i] == positions;
  }

  /** `_binary_scan`: appends the left offsets of the pairs where neither side is NULL and `func` holds. */
  method BinaryScan<T, R>(func: (T, R) -> bool, left: seq<SegmentPosition<T>>, right: seq<SegmentPosition<R>>,
                          chunkId: nat, matchesOut: PosList)
    requires |left| <= |right|
    modifies matchesOut
    ensures matchesOut.rows == old(matchesOut.rows) + Select(BinaryKeep(func), Pairs(left, right), chunkId)
  {
    var pairs := Pairs(left, right);
    var i := 0;
    while i < |left|
      invariant i <= |left|
      invariant matchesOut.rows == old(matchesOut.rows) + Select(BinaryKeep(func), pairs[..i], chunkId)
    {
      var l, r := left[i], right[i];
      SelectExtend(BinaryKeep(func), pairs, i, chunkId);
      if !(l.isNull || r.isNull) && func(l.value, r.value) {
        matchesOut.Append(RowID(chunkId, l.chunkOffset));
      }
      i := i + 1;
    }
    assert pairs[..i] == pairs;
  }
}
