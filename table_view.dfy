/**
 * The edit closures of the table view: each runs inside one `changeDoc`
 * transaction on the list-shaped document and mutates its `columns` and
 * `rows` lists in place. An index outside a list makes the closure throw
 * (`undefined.id`, or the list proxy refusing the splice), so the
 * transaction, and with it the edit, does not happen.
 */
module TableView {
  import opened Wrappers
  import opened Json
  import opened Schema

  /** The sequence without its element at `i`, the others in their order. */
  function RemoveAt<T>(s: seq<T>, i: nat): (r: seq<T>)
    requires i < |s|
    ensures |r| == |s| - 1
    ensures forall k :: 0 <= k < i ==> r[k] == s[k]
    ensures forall k :: i <= k < |r| ==> r[k] == s[k + 1]
  {
    s[..i] + s[i + 1..]
  }

  /** Every row with the cell of column `colId` deleted. */
  function WithoutCells(rows: seq<Row>, colId: string): (r: seq<Row>)
    ensures |r| == |rows|
    ensures forall k :: 0 <= k < |r| ==> r[k].id == rows[k].id && r[k].values == rows[k].values - {colId}
  {
    seq(|rows|, k requires 0 <= k < |rows| => rows[k].(values := rows[k].values - {colId}))
  }

  /** Deleting a column's cells leaves no cell of it behind and every other cell as it was. */
  lemma WithoutCellsEffect(rows: seq<Row>, colId: string)
    ensures forall k :: 0 <= k < |rows| ==> colId !in WithoutCells(rows, colId)[k].values
    ensures forall k, c :: 0 <= k < |rows| && c != colId && c in rows[k].values ==>
              c in WithoutCells(rows, colId)[k].values && WithoutCells(rows, colId)[k].values[c] == rows[k].values[c]
    ensures forall k, c :: 0 <= k < |rows| && c in WithoutCells(rows, colId)[k].values ==> c in rows[k].values
  {
  }

  /** The draft document of one transaction: the two lists the closures edit. */
  class Draft {
    var columns: seq<Column>
    var rows: seq<Row>

    constructor (doc: SheetDoc)
      ensures columns == doc.columns && rows == doc.rows
    {
      columns := doc.columns;
      rows := doc.rows;
    }

    /** `addColumn`: a text column named "New Column" with a fresh id, at the end. */
    method AddColumn(id: string)
      modifies this`columns
      ensures columns == old(columns) + [Column(id, "New Column", Text, None)]
    {
      columns := columns + [Column(id, "New Column", Text, None)];
    }

    /** `addRow`: a row with a fresh id and no cells, at the end. */
    method AddRow(id: string)
      modifies this`rows
      ensures rows == old(rows) + [Row(id, map[])]
    {
      rows := rows + [Row(id, map[])];
    }

    /** `deleteRow`: the row at the index is removed, the others keep their order. */
    method DeleteRow(rowIndex: int) returns (ok: bool)
      modifies this`rows
      ensures ok <==> 0 <= rowIndex < |old(rows)|
      ensures ok ==> rows == RemoveAt(old(rows), rowIndex)
      ensures !ok ==> rows == old(rows)
    {
      if !(0 <= rowIndex < |rows|) {
        return false;
      }
      rows := rows[..rowIndex] + rows[rowIndex + 1..];
      ok := true;
    }

    /**
     * `deleteColumn`: the column at the index is removed, then its id is
     * deleted from every row's cells, one row at a time.
     */
    method DeleteColumn(colIndex: int) returns (ok: bool)
      modifies this`columns, this`rows
      ensures ok <==> 0 <= colIndex < |old(columns)|
      ensures ok ==> columns == RemoveAt(old(columns), colIndex)
                     && rows == WithoutCells(old(rows), old(columns)[colIndex].id)
      ensures !ok ==> columns == old(columns) && rows == old(rows)
    {
      if !(0 <= colIndex < |columns|) {
        return false;
      }
      var colId := columns[colIndex].id;
      columns := columns[..colIndex] + columns[colIndex + 1..];
      var k := 0;
      while k < |rows|
        invariant columns == RemoveAt(old(columns), colIndex)
        invariant 0 <= k <= |rows| == |old(rows)|
        invariant forall j :: 0 <= j < k ==> rows[j] == old(rows)[j].(values := old(rows)[j].values - {colId})
        invariant forall j :: k <= j < |rows| ==> rows[j] == old(rows)[j]
      {
        var row := rows[k];
        rows := rows[k := row.(values := row.values - {colId})];
        k := k + 1;
      }
      assert forall j :: 0 <= j < |rows| ==> rows[j] == WithoutCells(old(rows), colId)[j];
      ok := true;
    }

    /** `updateColumnName`: only the name of the column at the index changes. */
    method UpdateColumnName(colIndex: int, name: string) returns (ok: bool)
      modifies this`columns
      ensures ok <==> 0 <= colIndex < |old(columns)|
      ensures ok ==> columns == old(columns)[colIndex := old(columns)[colIndex].(name := name)]
      ensures !ok ==> columns == old(columns)
    {
      if !(0 <= colIndex < |columns|) {
        return false;
      }
      columns := columns[colIndex := columns[colIndex].(name := name)];
      ok := true;
    }

    /** `updateColumnType`: only the type of the column at the index changes. */
    method UpdateColumnType(colIndex: int, kind: ColumnType) returns (ok: bool)
      modifies this`columns
      ensures ok <==> 0 <= colIndex < |old(columns)|
      ensures ok ==> columns == old(columns)[colIndex := old(columns)[colIndex].(kind := kind)]
      ensures !ok ==> columns == old(columns)
    {
      if !(0 <= colIndex < |columns|) {
        return false;
      }
      columns := columns[colIndex := columns[colIndex].(kind := kind)];
      ok := true;
    }

    /** `updateCell`: the one cell of the row at the index is set; no other row or cell changes. */
    method UpdateCell(rowIndex: int, colId: string, value: Json) returns (ok: bool)
      modifies this`rows
      ensures ok <==> 0 <= rowIndex < |old(rows)|
      ensures ok ==> rows == old(rows)[rowIndex := old(rows)[rowIndex].(values := old(rows)[rowIndex].values[colId := value])]
      ensures !ok ==> rows == old(rows)
    {
      if !(0 <= rowIndex < |rows|) {
        return false;
      }
      var row := rows[rowIndex];
      rows := rows[rowIndex := row.(values := row.values[colId := value])];
      ok := true;
    }
  }
}
