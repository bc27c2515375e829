/** Records of the table: selectable items and five-column rows. */
module Types {

  /** A nullable value: TypeScript's `T | null` (and `undefined`, which the table treats alike). */
  datatype Option<+T> = None | Some(value: T)

  /** An item of the shared option list; `parentId` links it to an item of the previous level. */
  datatype SelectorItem = SelectorItem(id: string, parentId: Option<string>)

  /** One cell of a hierarchy column: the selected item, or nothing. */
  type Cell = Option<SelectorItem>

  /** A table row: its numeric id and the five hierarchy columns col1..col5. */
  datatype TableRow = TableRow(id: int, col1: Cell, col2: Cell, col3: Cell, col4: Cell, col5: Cell)

  /** The cell of `row` in the column of hierarchy level `level` (col1 is level 1). */
  function Get(row: TableRow, level: int): Cell
    requires 1 <= level <= 5
  {
    match level
    case 1 => row.col1
    case 2 => row.col2
    case 3 => row.col3
    case 4 => row.col4
    case _ => row.col5
  }

  /** `row` with the cell at `level` overwritten by `v`, as `data[colName] = v` does. */
  function SetCell(row: TableRow, level: int, v: Cell): (r: TableRow)
    requires 1 <= level <= 5
    ensures r.id == row.id && Get(r, level) == v
    ensures forall j :: 1 <= j <= 5 && j != level ==> Get(r, j) == Get(row, j)
  {
    match level
    case 1 => row.(col1 := v)
    case 2 => row.(col2 := v)
    case 3 => row.(col3 := v)
    case 4 => row.(col4 := v)
    case _ => row.(col5 := v)
  }

  /** Two rows with the same id and the same five cells are the same row. */
  lemma RowsEqual(a: TableRow, b: TableRow)
    requires a.id == b.id
    requires forall j :: 1 <= j <= 5 ==> Get(a, j) == Get(b, j)
    ensures a == b
  {
    assert Get(a, 1) == Get(b, 1) && Get(a, 2) == Get(b, 2) && Get(a, 3) == Get(b, 3);
    assert Get(a, 4) == Get(b, 4) && Get(a, 5) == Get(b, 5);
  }

  /** A row whose every hierarchy cell is null. */
  function EmptyRow(id: int): (r: TableRow)
    ensures r.id == id && forall j :: 1 <= j <= 5 ==> Get(r, j) == None
  {
    TableRow(id, None, None, None, None, None)
  }
}
