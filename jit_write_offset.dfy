/**
 * `JitWriteOffset`, the last operator of a JIT chain that produces a reference table: every tuple
 * that reaches it appends its position to the context's output position list, and after each input
 * chunk that produced rows one output chunk of reference segments is appended to the output table.
 */
module JitWriteOffsetOperator {
  import opened PosLists
  import opened JitTypes
  import opened Product

  /** `JitOutputReferenceColumn`: an output column and the input column it references. */
  datatype OutputReferenceColumn = OutputReferenceColumn(name: string, dataType: DataType, isNullable: bool, referencedColumnId: nat)

  /** Every output row lies within the input position list. */
  predicate Covers(input: seq<RowID>, matches: seq<RowID>)
  {
    forall k :: 0 <= k < |matches| ==> matches[k].chunkOffset < |input|
  }

  /** The rows of an input position list selected by the output rows of the chunk, in output order. */
  function Filtered(input: seq<RowID>, matches: seq<RowID>): seq<RowID>
    requires Covers(input, matches)
  {
    seq(|matches|, k requires 0 <= k < |matches| => input[matches[k].chunkOffset])
  }

  /** The loop that fills one filtered position list. */
  method FilterPosList(input: PosList, matches: PosList) returns (filtered: PosList)
    requires Covers(input.rows, matches.rows)
    ensures fresh(filtered)
    ensures |filtered.rows| == |matches.rows|
    ensures forall k :: 0 <= k < |matches.rows| ==> filtered.rows[k] == input.rows[matches.rows[k].chunkOffset]
    ensures filtered.rows == Filtered(input.rows, matches.rows)
  {
    filtered := new PosList();
    var k := 0;
    while k < |matches.rows|
      invariant k <= |matches.rows|
      invariant filtered.rows == Filtered(input.rows, matches.rows)[..k]
    {
      var rowId := input.rows[matches.rows[k].chunkOffset];
      filtered.Append(rowId);
      assert Filtered(input.rows, matches.rows)[..k + 1] == Filtered(input.rows, matches.rows)[..k] + [rowId];
      k := k + 1;
    }
    assert Filtered(input.rows, matches.rows)[..k] == Filtered(input.rows, matches.rows);
  }

  /**
   * An output segment built for a reference input segment references what the input references,
   * and its position list holds the input positions of the chunk's output rows.
   */
  predicate ReferencesThrough(s: Segment, matches: seq<RowID>, out: OutputSegment)
    reads out.posList, if s.ReferenceSegment? then {s.posList} else {}
  {
    && s.ReferenceSegment?
    && out.referencedTable == s.referencedTable
    && out.referencedColumn == s.referencedColumn
    && Covers(s.posList.rows, matches)
    && out.posList.rows == Filtered(s.posList.rows, matches)
  }

  class JitWriteOffset {
    var outputColumns: seq<OutputReferenceColumn>

    constructor ()
      ensures outputColumns == []
    {
      outputColumns := [];
    }

    method AddOutputColumn(column: OutputReferenceColumn)
      modifies this`outputColumns
      ensures outputColumns == old(outputColumns) + [column]
    {
      outputColumns := outputColumns + [column];
    }

    /**
     * `create_output_table`: a table of type `References` with one column definition per output
     * column, in order. Bool columns cannot be output by reference.
     */
    method CreateOutputTable(inputTableChunkSize: nat) returns (table: OutputTable)
      requires forall i :: 0 <= i < |outputColumns| ==> outputColumns[i].dataType != Bool
      ensures fresh(table) && table.chunks == []
      ensures |table.definitions| == |outputColumns|
      ensures forall i :: 0 <= i < |outputColumns| ==>
        table.definitions[i] == ColumnDefinition(outputColumns[i].name, outputColumns[i].dataType, outputColumns[i].isNullable)
    {
      var definitions: seq<ColumnDefinition> := [];
      var i := 0;
      while i < |outputColumns|
        invariant i <= |outputColumns| && |definitions| == i
        invariant forall j :: 0 <= j < i ==>
          definitions[j] == ColumnDefinition(outputColumns[j].name, outputColumns[j].dataType, outputColumns[j].isNullable)
      {
        var column := outputColumns[i];
        definitions := definitions + [ColumnDefinition(column.name, column.dataType, column.isNullable)];
        i := i + 1;
      }
      table := new OutputTable(definitions);
    }

    /** `_consume`: the current position is appended to the output position list. */
    method Consume(context: JitRuntimeContext)
      modifies context.outputPosList
      ensures context.outputPosList.rows == old(context.outputPosList.rows) + [RowID(context.chunkId, context.chunkOffset)]
    {
      context.outputPosList.Append(RowID(context.chunkId, context.chunkOffset));
    }

    /** `_create_output_chunk`: a new, empty output position list (the reservation is not modelled). */
    method CreateOutputChunk(context: JitRuntimeContext, inChunkSize: nat)
      modifies context`outputPosList
      ensures fresh(context.outputPosList) && context.outputPosList.rows == []
    {
      context.outputPosList := new PosList();
    }

    /** `before_query`: the first output position list, sized for the first input chunk. */
    method BeforeQuery(inTable: Table, context: JitRuntimeContext)
      requires |inTable.chunks| > 0
      modifies context`outputPosList
      ensures fresh(context.outputPosList) && context.outputPosList.rows == []
    {
      CreateOutputChunk(context, inTable.chunks[0].size);
    }

    /** Input segment of output column i in the current chunk. */
    function InputSegment(chunk: Chunk, i: nat): Segment
      reads this
      requires i < |outputColumns| && outputColumns[i].referencedColumnId < |chunk.segments|
    {
      chunk.segments[outputColumns[i].referencedColumnId]
    }

    /** Every output column names a segment of the chunk. */
    predicate ColumnsInChunk(chunk: Chunk)
      reads this
    {
      forall i :: 0 <= i < |outputColumns| ==> outputColumns[i].referencedColumnId < |chunk.segments|
    }

    /** For a reference input every referenced segment is a reference segment whose positions cover the output rows. */
    predicate ReferenceInputCovers(chunk: Chunk, matches: seq<RowID>)
      reads this, ChunkPosLists(chunk)
      requires ColumnsInChunk(chunk)
    {
      forall i :: 0 <= i < |outputColumns| ==>
        InputSegment(chunk, i).ReferenceSegment? &&
        (assert InputSegment(chunk, i).posList in ChunkPosLists(chunk); Covers(InputSegment(chunk, i).posList.rows, matches))
    }

    /** Output columns i and j read through the same input position list. */
    predicate SharesInput(chunk: Chunk, i: nat, j: nat)
      reads this
      requires ColumnsInChunk(chunk) && i < |outputColumns| && j < |outputColumns|
      requires InputSegment(chunk, i).ReferenceSegment? && InputSegment(chunk, j).ReferenceSegment?
    {
      InputSegment(chunk, i).posList == InputSegment(chunk, j).posList
    }

    /**
     * The reference-input branch of `after_chunk`: one output segment per output column, each
     * referencing the input segment's referenced table and column through the filtered positions;
     * columns read through the same input position list share one filtered list, computed once.
     */
    method FilteredSegments(chunk: Chunk, matches: PosList) returns (segments: seq<OutputSegment>)
      requires ColumnsInChunk(chunk) && ReferenceInputCovers(chunk, matches.rows)
      ensures |segments| == |outputColumns|
      ensures forall i :: 0 <= i < |segments| ==> fresh(segments[i].posList)
      ensures forall i :: 0 <= i < |segments| ==> ReferencesThrough(InputSegment(chunk, i), matches.rows, segments[i])
      ensures forall i, j :: 0 <= i < |segments| && 0 <= j < |segments| && SharesInput(chunk, i, j) ==> segments[i].posList == segments[j].posList
    {
      var filteredPosLists: map<PosList, PosList> := map[];
      segments := [];
      var i := 0;
      while i < |outputColumns|
        invariant i <= |outputColumns| && |segments| == i
        invariant forall key :: key in filteredPosLists ==> fresh(filteredPosLists[key])
        invariant forall key :: key in filteredPosLists ==> key in ChunkPosLists(chunk)
        invariant forall key :: key in filteredPosLists ==>
          Covers(key.rows, matches.rows) && filteredPosLists[key].rows == Filtered(key.rows, matches.rows)
        invariant forall j :: 0 <= j < i ==>
          InputSegment(chunk, j).posList in filteredPosLists && segments[j].posList == filteredPosLists[InputSegment(chunk, j).posList]
        invariant forall j :: 0 <= j < i ==>
          segments[j].referencedTable == InputSegment(chunk, j).referencedTable &&
          segments[j].referencedColumn == InputSegment(chunk, j).referencedColumn
      {
        var s := InputSegment(chunk, i);
        assert s.posList in ChunkPosLists(chunk);
        var filtered: PosList;
        if s.posList in filteredPosLists {
          filtered := filteredPosLists[s.posList];
        } else {
          filtered := FilterPosList(s.posList, matches);
          filteredPosLists := filteredPosLists[s.posList := filtered];
        }
        segments := segments + [OutputSegment(s.referencedTable, s.referencedColumn, filtered)];
        i := i + 1;
      }
      forall i | 0 <= i < |segments|
        ensures ReferencesThrough(InputSegment(chunk, i), matches.rows, segments[i])
      {
        assert InputSegment(chunk, i).posList in ChunkPosLists(chunk);
      }
    }

    /**
     * `after_chunk`: when the chunk produced no rows nothing happens. Otherwise one chunk is
     * appended to the output: for a data-table input every output column references the input
     * table through the output position list itself, for a reference input through filtered lists
     * (`FilteredSegments`). A new, empty output list is started only when another input chunk
     * follows.
     */
    method AfterChunk(inTable: Table, isReferenceTable: bool, out: OutputTable, context: JitRuntimeContext)
      requires context.chunkId < |inTable.chunks|
      requires ColumnsInChunk(inTable.chunks[context.chunkId])
      requires isReferenceTable ==> ReferenceInputCovers(inTable.chunks[context.chunkId], context.outputPosList.rows)
      modifies out, context`outputPosList
      ensures old(context.outputPosList.rows) == [] ==>
        out.chunks == old(out.chunks) && context.outputPosList == old(context.outputPosList)
      ensures old(context.outputPosList.rows) != [] ==>
        && |out.chunks| == |old(out.chunks)| + 1
        && out.chunks[..|old(out.chunks)|] == old(out.chunks)
        && |out.chunks[|old(out.chunks)|]| == |outputColumns|
        && (!isReferenceTable ==> forall i :: 0 <= i < |outputColumns| ==>
              out.chunks[|old(out.chunks)|][i] == OutputSegment(inTable.id, outputColumns[i].referencedColumnId, old(context.outputPosList)))
        && (isReferenceTable ==> forall i :: 0 <= i < |outputColumns| ==>
              ReferencesThrough(InputSegment(inTable.chunks[context.chunkId], i), old(context.outputPosList.rows), out.chunks[|old(out.chunks)|][i]))
        && (if context.chunkId + 1 < |inTable.chunks|
            then fresh(context.outputPosList) && context.outputPosList.rows == []
            else context.outputPosList == old(context.outputPosList))
    {
      if |context.outputPosList.rows| > 0 {
        var chunk := inTable.chunks[context.chunkId];
        var segments: seq<OutputSegment>;
        if isReferenceTable {
          segments := FilteredSegments(chunk, context.outputPosList);
        } else {
          segments := [];
          var i := 0;
          while i < |outputColumns|
            invariant i <= |outputColumns| && |segments| == i
            invariant forall j :: 0 <= j < i ==>
              segments[j] == OutputSegment(inTable.id, outputColumns[j].referencedColumnId, context.outputPosList)
          {
            segments := segments + [OutputSegment(inTable.id, outputColumns[i].referencedColumnId, context.outputPosList)];
            i := i + 1;
          }
        }
        out.AppendChunk(segments);
        if context.chunkId + 1 < |inTable.chunks| {
          CreateOutputChunk(context, inTable.chunks[context.chunkId + 1].size);
        }
      }
    }
  }
}
