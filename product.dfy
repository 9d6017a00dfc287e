/**
 * The cross product of two tables. For every pair of a left and a right chunk one output chunk is
 * appended whose segments all reference the inputs: the left side repeats each of its rows
 * `right_size` times, the right side repeats its whole sequence of rows `left_size` times, so that row
 * i of the output pairs left row `i / right_size` with right row `i % right_size`.
 */
module Product {
  import opened Wrappers
  import opened PosLists
  import opened Arithmetic
  import opened JitTypes

  /** A column definition; the product copies definitions unchanged. */
  datatype ColumnDefinition = ColumnDefinition(name: string, dataType: DataType, nullable: bool)

  /**
   * A segment of an input chunk: either it stores its values, or it references `referencedColumn` of
   * the table `referencedTable` through a position list.
   */
  datatype Segment =
    | ValueSegment
    | ReferenceSegment(referencedTable: nat, referencedColumn: nat, posList: PosList)

  datatype Chunk = Chunk(size: nat, segments: seq<Segment>)

  /** An input table, named by an identity that output segments can reference. */
  datatype Table = Table(id: nat, definitions: seq<ColumnDefinition>, chunks: seq<Chunk>)

  /** A segment of the output: always a reference segment. */
  datatype OutputSegment = OutputSegment(referencedTable: nat, referencedColumn: nat, posList: PosList)

  /** The output table, of type `References`, to which `append_chunk` adds chunks. */
  class OutputTable {
    const definitions: seq<ColumnDefinition>
    var chunks: seq<seq<OutputSegment>>

    constructor (definitions: seq<ColumnDefinition>)
      ensures this.definitions == definitions && chunks == []
    {
      this.definitions := definitions;
      chunks := [];
    }

    method AppendChunk(segments: seq<OutputSegment>)
      modifies this
      ensures chunks == old(chunks) + [segments]
    {
      chunks := chunks + [segments];
    }
  }

  /** The position list a segment reads its rows through (`pos_list_in`), null for a value segment. */
  function InputPosList(s: Segment): PosList?
  {
    if s.ReferenceSegment? then s.posList else null
  }

  /** The pos lists a chunk references. */
  function ChunkPosLists(c: Chunk): set<PosList>
  {
    set j | 0 <= j < |c.segments| && c.segments[j].ReferenceSegment? :: c.segments[j].posList
  }

  /** The rows behind a segment's position list, if it has one. */
  function InputRows(s: Segment): Option<seq<RowID>>
    reads if s.ReferenceSegment? then {s.posList} else {}
  {
    if s.ReferenceSegment? then Some(s.posList.rows) else None
  }

  /** A reference segment holds one position per row of its chunk. */
  predicate ChunkWellFormed(c: Chunk)
    reads ChunkPosLists(c)
  {
    forall j :: 0 <= j < |c.segments| && c.segments[j].ReferenceSegment? ==>
      c.segments[j].posList in ChunkPosLists(c) && |c.segments[j].posList.rows| == c.size
  }

  /** What a side contributes at input offset `offset`: the referenced row, or the row itself. */
  function Entry(input: Option<seq<RowID>>, chunkId: nat, offset: nat): RowID
    requires input.Some? ==> offset < |input.value|
  {
    if input.Some? then input.value[offset] else RowID(chunkId, offset)
  }

  /** `is_left_side ? i / right_size : i % right_size`. */
  function SideOffset(isLeftSide: bool, i: nat, rightSize: nat): nat
    requires rightSize > 0
  {
    if isLeftSide then i / rightSize else i % rightSize
  }

  /** Output row i lies in the grid: its left offset is below `left_size`, its right offset below `right_size`. */
  lemma GridIndex(i: nat, leftSize: nat, rightSize: nat)
    requires i < leftSize * rightSize
    ensures rightSize > 0 && i / rightSize < leftSize && i % rightSize < rightSize
  {
    DivBelow(i, rightSize, leftSize);
  }

  /** The side's input has a row for each offset the side reads. */
  predicate CoversSide(isLeftSide: bool, leftSize: nat, rightSize: nat, input: Option<seq<RowID>>)
  {
    input.Some? ==> |input.value| >= (if isLeftSide then leftSize else rightSize)
  }

  /** The position list one side of the product builds: `left_size * right_size` entries. */
  function SidePositions(isLeftSide: bool, chunkId: nat, leftSize: nat, rightSize: nat, input: Option<seq<RowID>>)
    : (r: seq<RowID>)
    requires CoversSide(isLeftSide, leftSize, rightSize, input)
    ensures |r| == leftSize * rightSize
  {
    seq(leftSize * rightSize, i requires 0 <= i < leftSize * rightSize =>
      GridIndex(i, leftSize, rightSize);
      Entry(input, chunkId, SideOffset(isLeftSide, i, rightSize)))
  }

  /** Pair (l, r) of the grid has index `l * right_size + r`, below `left_size * right_size`. */
  lemma PairIndex(leftSize: nat, rightSize: nat, l: nat, r: nat)
    requires l < leftSize && r < rightSize
    ensures l * rightSize + r < leftSize * rightSize
    ensures (l * rightSize + r) / rightSize == l && (l * rightSize + r) % rightSize == r
  {
    MulMonotone(l + 1, leftSize, rightSize);
    MulSucc(l, rightSize);
    DivModUnique(l * rightSize + r, rightSize, l, r);
  }

  /**
   * Every pair (l, r) of a left and a right row is output row `l * right_size + r`: the left list holds
   * the left side's entry l there and the right list the right side's entry r.
   */
  lemma ProductHoldsPair(chunkIdLeft: nat, chunkIdRight: nat, leftSize: nat, rightSize: nat,
                         inputLeft: Option<seq<RowID>>, inputRight: Option<seq<RowID>>, l: nat, r: nat)
    requires CoversSide(true, leftSize, rightSize, inputLeft) && CoversSide(false, leftSize, rightSize, inputRight)
    requires l < leftSize && r < rightSize
    ensures l * rightSize + r < leftSize * rightSize
    ensures SidePositions(true, chunkIdLeft, leftSize, rightSize, inputLeft)[l * rightSize + r] == Entry(inputLeft, chunkIdLeft, l)
    ensures SidePositions(false, chunkIdRight, leftSize, rightSize, inputRight)[l * rightSize + r] == Entry(inputRight, chunkIdRight, r)
  {
    PairIndex(leftSize, rightSize, l, r);
  }

  /** Each output row comes from exactly one pair: distinct pairs have distinct indices. */
  lemma PairsAppearOnce(leftSize: nat, rightSize: nat, l: nat, r: nat, l2: nat, r2: nat)
    requires l < leftSize && r < rightSize && l2 < leftSize && r2 < rightSize
    requires l * rightSize + r == l2 * rightSize + r2
    ensures l == l2 && r == r2
  {
    PairIndex(leftSize, rightSize, l, r);
    PairIndex(leftSize, rightSize, l2, r2);
  }

  /** The rows are left-major: a later output row has a larger left offset, or the same one and a larger right offset. */
  lemma LeftMajorOrder(leftSize: nat, rightSize: nat, i: nat, j: nat)
    requires i < j < leftSize * rightSize
    ensures i / rightSize < j / rightSize || (i / rightSize == j / rightSize && i % rightSize < j % rightSize)
  {
    GridIndex(i, leftSize, rightSize);
    GridIndex(j, leftSize, rightSize);
    DivModIdentity(i, rightSize);
    DivModIdentity(j, rightSize);
    if i / rightSize > j / rightSize {
      DigitOrder(j / rightSize, i / rightSize, rightSize, j % rightSize, i % rightSize);
    } else if i / rightSize == j / rightSize {
    }
  }

  /** A fresh pos list filled by the loop of `add_product_of_two_chunks`. */
  method BuildPosList(isLeftSide: bool, chunkId: nat, leftSize: nat, rightSize: nat, input: Option<seq<RowID>>)
    returns (posListOut: PosList)
    requires CoversSide(isLeftSide, leftSize, rightSize, input)
    ensures fresh(posListOut)
    ensures posListOut.rows == SidePositions(isLeftSide, chunkId, leftSize, rightSize, input)
  {
    posListOut := new PosList();
    ghost var expected := SidePositions(isLeftSide, chunkId, leftSize, rightSize, input);
    var i := 0;
    while i < leftSize * rightSize
      invariant i <= leftSize * rightSize
      invariant posListOut.rows == expected[..i]
    {
      GridIndex(i, leftSize, rightSize);
      var offset := if isLeftSide then i / rightSize else i % rightSize;
      if input.Some? {
        posListOut.Append(input.value[offset]);
      } else {
        posListOut.Append(RowID(chunkId, offset));
      }
      assert expected[..i + 1] == expected[..i] + [expected[i]];
      i := i + 1;
    }
    assert expected[..i] == expected;
  }

  /** The output segment for input segment j of one side. */
  predicate SideSegmentOk(isLeftSide: bool, tableId: nat, chunkId: nat, leftSize: nat, rightSize: nat,
                          s: Segment, j: nat, out: OutputSegment)
    reads out.posList, if s.ReferenceSegment? then {s.posList} else {}
  {
    && CoversSide(isLeftSide, leftSize, rightSize, InputRows(s))
    && ReferencesAsInput(tableId, s, j, out)
    && out.posList.rows == SidePositions(isLeftSide, chunkId, leftSize, rightSize, InputRows(s))
  }

  /**
   * The segments one side of `add_product_of_two_chunks` produces: one per input segment, each
   * referencing what the input references, and all segments with the same input pos list (or none)
   * sharing a single output list, computed once.
   */
  method SideSegments(isLeftSide: bool, chunkIn: Chunk, tableId: nat, chunkId: nat, leftSize: nat, rightSize: nat)
    returns (segments: seq<OutputSegment>)
    requires ChunkWellFormed(chunkIn)
    requires chunkIn.size == (if isLeftSide then leftSize else rightSize)
    ensures |segments| == |chunkIn.segments|
    ensures forall j :: 0 <= j < |segments| ==> fresh(segments[j].posList)
    ensures forall j :: 0 <= j < |segments| ==>
      SideSegmentOk(isLeftSide, tableId, chunkId, leftSize, rightSize, chunkIn.segments[j], j, segments[j])
    ensures forall j, k :: 0 <= j < |segments| && 0 <= k < |segments| && SameInput(chunkIn, j, k) ==>
      segments[j].posList == segments[k].posList
  {
    var calculated: map<PosList?, PosList> := map[];
    segments := [];
    var c := 0;
    while c < |chunkIn.segments|
      invariant c <= |chunkIn.segments| && |segments| == c
      invariant forall key :: key in calculated ==> fresh(calculated[key])
      invariant forall key :: key in calculated ==>
        CoversSide(isLeftSide, leftSize, rightSize, KeyRows(key)) &&
        calculated[key].rows == SidePositions(isLeftSide, chunkId, leftSize, rightSize, KeyRows(key))
      invariant forall j :: 0 <= j < c ==>
        InputPosList(chunkIn.segments[j]) in calculated && segments[j].posList == calculated[InputPosList(chunkIn.segments[j])]
      invariant forall j :: 0 <= j < c ==> ReferencesAsInput(tableId, chunkIn.segments[j], j, segments[j])
    {
      var s := chunkIn.segments[c];
      var key := InputPosList(s);
      var referencedTable, referencedColumn := tableId, c;
      if s.ReferenceSegment? {
        referencedTable, referencedColumn := s.referencedTable, s.referencedColumn;
        assert s.posList in ChunkPosLists(chunkIn);
      }
      var posListOut: PosList;
      if key in calculated {
        posListOut := calculated[key];
      } else {
        posListOut := BuildPosList(isLeftSide, chunkId, leftSize, rightSize, KeyRows(key));
        calculated := calculated[key := posListOut];
      }
      segments := segments + [OutputSegment(referencedTable, referencedColumn, posListOut)];
      c := c + 1;
    }
    forall j | 0 <= j < |segments|
      ensures SideSegmentOk(isLeftSide, tableId, chunkId, leftSize, rightSize, chunkIn.segments[j], j, segments[j])
    {
      KeyRowsOfSegment(chunkIn.segments[j]);
    }
  }

  /** The rows behind a memo key: none for the null key. */
  function KeyRows(key: PosList?): Option<seq<RowID>>
    reads key
  {
    if key == null then None else Some(key.rows)
  }

  lemma KeyRowsOfSegment(s: Segment)
    ensures KeyRows(InputPosList(s)) == InputRows(s)
  {
  }

  /** The output segment references what the input segment references (or the input itself). */
  predicate ReferencesAsInput(tableId: nat, s: Segment, j: nat, out: OutputSegment)
  {
    && out.referencedTable == (if s.ReferenceSegment? then s.referencedTable else tableId)
    && out.referencedColumn == (if s.ReferenceSegment? then s.referencedColumn else j)
  }

  /** Segments j and k of a chunk read through the same pos list, or both through none. */
  predicate SameInput(c: Chunk, j: nat, k: nat)
    requires j < |c.segments| && k < |c.segments|
  {
    InputPosList(c.segments[j]) == InputPosList(c.segments[k])
  }

  /** The pos lists referenced anywhere in a table. */
  function TablePosLists(t: Table): set<PosList>
  {
    set k, j | 0 <= k < |t.chunks| && 0 <= j < |t.chunks[k].segments| && t.chunks[k].segments[j].ReferenceSegment?
      :: t.chunks[k].segments[j].posList
  }

  lemma ChunkPosListsInTable(t: Table, k: nat)
    requires k < |t.chunks|
    ensures ChunkPosLists(t.chunks[k]) <= TablePosLists(t)
  {
  }

  /** Every chunk of the table is well formed. */
  predicate TableWellFormed(t: Table)
    reads TablePosLists(t)
  {
    forall k :: 0 <= k < |t.chunks| ==>
      (ChunkPosListsInTable(t, k); ChunkWellFormed(t.chunks[k]))
  }

  /** The pos lists of an output chunk. */
  function OutputPosLists(segments: seq<OutputSegment>): set<PosList>
  {
    set j | 0 <= j < |segments| :: segments[j].posList
  }

  /**
   * `segments` is the product of left chunk `chunkIdLeft` and right chunk `chunkIdRight`: all left
   * segments, then all right segments, each built by its side, with the sharing of each side.
   */
  predicate IsProductChunk(segments: seq<OutputSegment>, left: Table, right: Table, chunkIdLeft: nat, chunkIdRight: nat)
    requires chunkIdLeft < |left.chunks| && chunkIdRight < |right.chunks|
    reads OutputPosLists(segments), ChunkPosLists(left.chunks[chunkIdLeft]), ChunkPosLists(right.chunks[chunkIdRight])
  {
    var cl, cr := left.chunks[chunkIdLeft], right.chunks[chunkIdRight];
    && |segments| == |cl.segments| + |cr.segments|
    && (forall j :: 0 <= j < |cl.segments| ==>
          assert segments[j].posList in OutputPosLists(segments);
          assert cl.segments[j].ReferenceSegment? ==> cl.segments[j].posList in ChunkPosLists(cl);
          SideSegmentOk(true, left.id, chunkIdLeft, cl.size, cr.size, cl.segments[j], j, segments[j]))
    && (forall j :: 0 <= j < |cr.segments| ==>
          assert segments[|cl.segments| + j].posList in OutputPosLists(segments);
          assert cr.segments[j].ReferenceSegment? ==> cr.segments[j].posList in ChunkPosLists(cr);
          SideSegmentOk(false, right.id, chunkIdRight, cl.size, cr.size, cr.segments[j], j, segments[|cl.segments| + j]))
    && (forall j, k :: 0 <= j < |cl.segments| && 0 <= k < |cl.segments| && SameInput(cl, j, k) ==>
          segments[j].posList == segments[k].posList)
    && (forall j, k :: 0 <= j < |cr.segments| && 0 <= k < |cr.segments| && SameInput(cr, j, k) ==>
          segments[|cl.segments| + j].posList == segments[|cl.segments| + k].posList)
  }

  /** The output chunk of the pair of left chunk l and right chunk r when chunks are laid out left-major. */
  function PairChunk(chunks: seq<seq<OutputSegment>>, rightCount: nat, l: nat, r: nat): seq<OutputSegment>
  {
    if l * rightCount + r < |chunks| then chunks[l * rightCount + r] else []
  }

  lemma TableChunkWellFormed(t: Table, k: nat)
    requires k < |t.chunks| && TableWellFormed(t)
    ensures ChunkWellFormed(t.chunks[k])
  {
  }

  /** The segments of `add_product_of_two_chunks`: the left side's, then the right side's. */
  method ProductSegments(left: Table, right: Table, chunkIdLeft: nat, chunkIdRight: nat)
    returns (segments: seq<OutputSegment>)
    requires chunkIdLeft < |left.chunks| && chunkIdRight < |right.chunks|
    requires ChunkWellFormed(left.chunks[chunkIdLeft]) && ChunkWellFormed(right.chunks[chunkIdRight])
    ensures fresh(OutputPosLists(segments))
    ensures IsProductChunk(segments, left, right, chunkIdLeft, chunkIdRight)
  {
    var chunkLeft, chunkRight := left.chunks[chunkIdLeft], right.chunks[chunkIdRight];
    var leftSegments := SideSegments(true, chunkLeft, left.id, chunkIdLeft, chunkLeft.size, chunkRight.size);
    var rightSegments := SideSegments(false, chunkRight, right.id, chunkIdRight, chunkLeft.size, chunkRight.size);
    segments := leftSegments + rightSegments;
    SidesMakeProductChunk(leftSegments, rightSegments, left, right, chunkIdLeft, chunkIdRight);
    forall p | p in OutputPosLists(segments)
      ensures fresh(p)
    {
      var j :| 0 <= j < |segments| && segments[j].posList == p;
      if j < |leftSegments| {
        assert p == leftSegments[j].posList;
      } else {
        assert p == rightSegments[j - |leftSegments|].posList;
      }
    }
  }

  /** `add_product_of_two_chunks`: appends the product chunk of one left and one right chunk. */
  method AddProductOfTwoChunks(output: OutputTable, left: Table, right: Table, chunkIdLeft: nat, chunkIdRight: nat)
    requires chunkIdLeft < |left.chunks| && chunkIdRight < |right.chunks|
    requires ChunkWellFormed(left.chunks[chunkIdLeft]) && ChunkWellFormed(right.chunks[chunkIdRight])
    modifies output
    ensures |output.chunks| == |old(output.chunks)| + 1 && output.chunks[..|old(output.chunks)|] == old(output.chunks)
    ensures fresh(OutputPosLists(output.chunks[|output.chunks| - 1]))
    ensures IsProductChunk(output.chunks[|output.chunks| - 1], left, right, chunkIdLeft, chunkIdRight)
  {
    var segments := ProductSegments(left, right, chunkIdLeft, chunkIdRight);
    output.AppendChunk(segments);
    assert output.chunks[|output.chunks| - 1] == segments;
    assert output.chunks[..|old(output.chunks)|] == old(output.chunks);
  }

  /** The left side's segments followed by the right side's make the product chunk. */
  lemma SidesMakeProductChunk(leftSegments: seq<OutputSegment>, rightSegments: seq<OutputSegment>,
                              left: Table, right: Table, chunkIdLeft: nat, chunkIdRight: nat)
    requires chunkIdLeft < |left.chunks| && chunkIdRight < |right.chunks|
    requires var cl, cr := left.chunks[chunkIdLeft], right.chunks[chunkIdRight];
      && |leftSegments| == |cl.segments| && |rightSegments| == |cr.segments|
      && (forall j :: 0 <= j < |leftSegments| ==>
            SideSegmentOk(true, left.id, chunkIdLeft, cl.size, cr.size, cl.segments[j], j, leftSegments[j]))
      && (forall j :: 0 <= j < |rightSegments| ==>
            SideSegmentOk(false, right.id, chunkIdRight, cl.size, cr.size, cr.segments[j], j, rightSegments[j]))
      && (forall j, k :: 0 <= j < |leftSegments| && 0 <= k < |leftSegments| && SameInput(cl, j, k) ==>
            leftSegments[j].posList == leftSegments[k].posList)
      && (forall j, k :: 0 <= j < |rightSegments| && 0 <= k < |rightSegments| && SameInput(cr, j, k) ==>
            rightSegments[j].posList == rightSegments[k].posList)
    ensures IsProductChunk(leftSegments + rightSegments, left, right, chunkIdLeft, chunkIdRight)
  {
    var segments := leftSegments + rightSegments;
    assert forall j :: 0 <= j < |leftSegments| ==> segments[j] == leftSegments[j];
    assert forall j :: 0 <= j < |rightSegments| ==> segments[|leftSegments| + j] == rightSegments[j];
  }

  /** Chunks of earlier rows lie before row l; the chunks of row l follow them in order. */
  lemma PairChunkRows(before: seq<seq<OutputSegment>>, after: seq<seq<OutputSegment>>, nl: nat, nr: nat, l: nat)
    requires l < nl && |before| == l * nr && |after| == |before| + nr && after[..|before|] == before
    ensures forall m, r :: 0 <= m < l && 0 <= r < nr ==> PairChunk(after, nr, m, r) == PairChunk(before, nr, m, r)
    ensures forall r :: 0 <= r < nr ==> PairChunk(after, nr, l, r) == after[|before|..][r]
  {
    forall m, r | 0 <= m < l && 0 <= r < nr
      ensures PairChunk(after, nr, m, r) == PairChunk(before, nr, m, r)
    {
      PairIndex(l, nr, m, r);
      assert after[m * nr + r] == after[..|before|][m * nr + r];
    }
  }

  /** With the chunks of left row l appended, the products of rows 0..l are all in place. */
  lemma ProductsOfNextLeftChunk(before: seq<seq<OutputSegment>>, after: seq<seq<OutputSegment>>,
                                left: Table, right: Table, nl: nat, nr: nat, l: nat)
    requires nl == |left.chunks| && nr == |right.chunks| && l < nl
    requires |before| == l * nr && |after| == |before| + nr && after[..|before|] == before
    requires forall m, r :: 0 <= m < l && 0 <= r < nr ==>
      IsProductChunk(PairChunk(before, nr, m, r), left, right, m, r)
    requires forall r :: 0 <= r < nr ==> IsProductChunk(after[|before|..][r], left, right, l, r)
    ensures forall m, r :: 0 <= m <= l && 0 <= r < nr ==>
      IsProductChunk(PairChunk(after, nr, m, r), left, right, m, r)
  {
    PairChunkRows(before, after, nl, nr, l);
  }

  /** The inner loop of `_on_execute`: the products of left chunk l with every right chunk, in order. */
  method AddProductsOfLeftChunk(output: OutputTable, left: Table, right: Table, l: nat)
    requires l < |left.chunks| && TableWellFormed(left) && TableWellFormed(right)
    modifies output
    ensures |output.chunks| == |old(output.chunks)| + |right.chunks|
    ensures output.chunks[..|old(output.chunks)|] == old(output.chunks)
    ensures forall r :: 0 <= r < |right.chunks| ==>
      IsProductChunk(output.chunks[|old(output.chunks)|..][r], left, right, l, r)
  {
    TableChunkWellFormed(left, l);
    ghost var start := |output.chunks|;
    var r := 0;
    while r < |right.chunks|
      invariant r <= |right.chunks| && |output.chunks| == start + r
      invariant output.chunks[..start] == old(output.chunks)
      invariant forall q :: 0 <= q < r ==> IsProductChunk(output.chunks[start..][q], left, right, l, q)
    {
      TableChunkWellFormed(right, r);
      ghost var before := output.chunks;
      label Before:
      AddProductOfTwoChunks(output, left, right, l, r);
      forall q | 0 <= q <= r
        ensures IsProductChunk(output.chunks[start..][q], left, right, l, q)
      {
        if q < r {
          assert old@Before(IsProductChunk(before[start..][q], left, right, l, q));
          assert output.chunks[start..][q] == before[start..][q];
        } else {
          assert output.chunks[start..][q] == output.chunks[|output.chunks| - 1];
        }
      }
      r := r + 1;
    }
  }

  /** The column loops of `_on_execute`: every left column definition, then every right one. */
  method OutputDefinitions(left: Table, right: Table) returns (definitions: seq<ColumnDefinition>)
    ensures definitions == left.definitions + right.definitions
  {
    definitions := [];
    var c := 0;
    while c < |left.definitions|
      invariant c <= |left.definitions| && definitions == left.definitions[..c]
    {
      definitions := definitions + [left.definitions[c]];
      c := c + 1;
      assert left.definitions[..c] == left.definitions[..c - 1] + [left.definitions[c - 1]];
    }
    c := 0;
    while c < |right.definitions|
      invariant c <= |right.definitions| && definitions == left.definitions + right.definitions[..c]
    {
      definitions := definitions + [right.definitions[c]];
      c := c + 1;
      assert right.definitions[..c] == right.definitions[..c - 1] + [right.definitions[c - 1]];
    }
    assert left.definitions[..|left.definitions|] == left.definitions;
    assert right.definitions[..|right.definitions|] == right.definitions;
  }

  /** One round of the outer loop of `_on_execute`: row l of the left-major grid of product chunks. */
  method AddProductRow(output: OutputTable, left: Table, right: Table, l: nat)
    requires l < |left.chunks| && TableWellFormed(left) && TableWellFormed(right)
    requires |output.chunks| == l * |right.chunks|
    requires forall m, r :: 0 <= m < l && 0 <= r < |right.chunks| ==>
      IsProductChunk(PairChunk(output.chunks, |right.chunks|, m, r), left, right, m, r)
    modifies output
    ensures |output.chunks| == (l + 1) * |right.chunks|
    ensures forall m, r :: 0 <= m <= l && 0 <= r < |right.chunks| ==>
      IsProductChunk(PairChunk(output.chunks, |right.chunks|, m, r), left, right, m, r)
  {
    var nl, nr := |left.chunks|, |right.chunks|;
    ghost var before := output.chunks;
    AddProductsOfLeftChunk(output, left, right, l);
    forall m, r | 0 <= m < l && 0 <= r < nr
      ensures IsProductChunk(PairChunk(before, nr, m, r), left, right, m, r)
    {
      assert old(IsProductChunk(PairChunk(before, nr, m, r), left, right, m, r));
    }
    MulSucc(l, nr);
    ProductsOfNextLeftChunk(before, output.chunks, left, right, nl, nr, l);
  }

  /**
   * `_on_execute`: the output has the left column definitions followed by the right ones, and one
   * chunk per pair of a left and a right chunk, left-major: chunk k is the product of left chunk
   * `k / right_chunk_count` and right chunk `k % right_chunk_count`.
   */
  method Execute(left: Table, right: Table) returns (output: OutputTable)
    requires TableWellFormed(left) && TableWellFormed(right)
    ensures output.definitions == left.definitions + right.definitions
    ensures |output.chunks| == |left.chunks| * |right.chunks|
    ensures forall l, r :: 0 <= l < |left.chunks| && 0 <= r < |right.chunks| ==>
      IsProductChunk(PairChunk(output.chunks, |right.chunks|, l, r), left, right, l, r)
  {
    var definitions := OutputDefinitions(left, right);
    output := new OutputTable(definitions);
    var nl, nr := |left.chunks|, |right.chunks|;
    var l := 0;
    while l < nl
      invariant l <= nl && |output.chunks| == l * nr
      invariant output.definitions == left.definitions + right.definitions
      invariant forall m, r :: 0 <= m < l && 0 <= r < nr ==>
        IsProductChunk(PairChunk(output.chunks, nr, m, r), left, right, m, r)
    {
      AddProductRow(output, left, right, l);
      l := l + 1;
    }
  }
}
