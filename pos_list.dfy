/** Row identifiers and the position lists that scans, products and the JIT writer append to. */
module PosLists {

  /** `RowID`: a chunk of a table and an offset inside that chunk. */
  datatype RowID = RowID(chunkId: nat, chunkOffset: nat)

  /** A `PosList`: a growable vector of row ids, shared between the columns that use it. */
  class PosList {
    var rows: seq<RowID>

    constructor ()
      ensures rows == []
    {
      rows := [];
    }

    /** `push_back` / `emplace_back`. */
    method Append(row: RowID)
      modifies this
      ensures rows == old(rows) + [row]
    {
      rows := rows + [row];
    }
  }
}
