/**
 * The document types of the list-shaped schema the table view edits:
 * columns and rows in insertion-ordered lists, cell values keyed by column
 * id.
 */
module Schema {
  import opened Wrappers
  import opened Json

  datatype ColumnType = Text | Number | Checkbox | Date | Select

  /** A choice of a select column; `caption` is the source's `label`, a reserved word here. */
  datatype SelectOption = SelectOption(id: string, caption: string, color: string)

  datatype Column = Column(id: string, name: string, kind: ColumnType, options: Option<seq<SelectOption>>)

  /** A row; `values` maps column ids to cell values of any shape. */
  datatype Row = Row(id: string, values: map<string, Json>)

  datatype Meta = Meta(name: string, schemaVersion: int)

  datatype SheetDoc = SheetDoc(meta: Meta, columns: seq<Column>, rows: seq<Row>)
}
