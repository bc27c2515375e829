/**
 * The table's mutable state: the shared option list and the row store, with the three
 * handlers that change them (a cell's change handler, its create handler, and "add rows").
 */
module TableState {
  import opened Types
  import opened Schema
  import opened OptionForest
  import opened Cascade

  class Table {
    /** The shared, append-only option list. */
    var options: seq<SelectorItem>
    /** The rows, in grid order. */
    var rows: seq<TableRow>

    /** The store is never empty and the row at position k has id k + 1. */
    ghost predicate Valid()
      reads this
    {
      |rows| > 0 && Numbered(rows)
    }

    /** The option list is a forest and every row keeps a legal lineage. */
    ghost predicate Consistent()
      reads this
    {
      ParentsExist(options) && forall k :: 0 <= k < |rows| ==> RowLegal(options, rows[k])
    }

    /** The table as it starts: the seed options and 100 empty rows numbered 1..100. */
    constructor ()
      ensures options == InitialOptions() && rows == InitialData()
      ensures Valid() && Consistent()
    {
      options := InitialOptions();
      rows := InitialData();
      InitialDataShape();
      InitialOptionsForest();
    }

    /**
     * The change handler of the cell at `level` of the row at `rowIndex`: it stores `value`
     * and nulls every later cell of that row. Nothing else changes, and the row stays legal
     * when `value` was offered (or the selection was cleared).
     */
    method OnChange(rowIndex: nat, level: int, value: Cell)
      requires Valid() && rowIndex < |rows| && 1 <= level <= 5
      modifies this
      ensures Valid() && options == old(options)
      ensures rows == old(rows)[rowIndex := Selected(old(rows)[rowIndex], level, value)]
      ensures old(Consistent()) && Offered(options, old(rows)[rowIndex], level, value) ==> Consistent()
    {
      ghost var before := rows[rowIndex];
      rows := rows[rowIndex := SetCell(rows[rowIndex], level, value)];
      if level != ColumnCount - 1 {
        for i := level + 1 to ColumnCount
          invariant options == old(options) && |rows| == |old(rows)|
          invariant forall k :: 0 <= k < |rows| && k != rowIndex ==> rows[k] == old(rows)[k]
          invariant rows[rowIndex].id == before.id
          invariant forall j :: 1 <= j <= 5 ==>
            Get(rows[rowIndex], j) ==
              if j < level then Get(before, j)
              else if j == level then value
              else if j < i then None
              else Get(before, j)
        {
          rows := rows[rowIndex := SetCell(rows[rowIndex], i, None)];
        }
      }
      RowsEqual(rows[rowIndex], Selected(before, level, value));
      assert forall k :: 0 <= k < |rows| ==> rows[k].id == old(rows)[k].id;
      if old(Consistent()) && Offered(options, before, level, value) {
        forall k | 0 <= k < |rows| ensures RowLegal(options, rows[k]) {
          if k == rowIndex {
            SelectKeepsLegal(options, before, level, value);
          }
        }
      }
    }

    /**
     * The create handler of the cell at `level` of the row at `rowIndex`: it appends one item
     * named `id` whose parent is the id in the row's previous cell, if that cell is set.
     * The rows are untouched.
     */
    method OnCreate(rowIndex: nat, level: int, id: string)
      requires Valid() && rowIndex < |rows| && 1 <= level <= 5
      modifies this
      ensures Valid() && rows == old(rows)
      ensures options == old(options) + [CreatedItem(rows[rowIndex], level, id)]
      ensures old(Consistent()) ==> Consistent()
    {
      var parentId: Option<string> := None;
      // At level 1 the previous column is the numeric row id, which has no `.id`.
      if level > 1 {
        var value := Get(rows[rowIndex], level - 1);
        if value.Some? {
          parentId := Some(value.value.id);
        }
      }
      ghost var old_options := options;
      options := options + [SelectorItem(id, parentId)];
      if old(Consistent()) {
        CreateKeepsForest(old_options, rows[rowIndex], level, id);
        forall k | 0 <= k < |rows| ensures RowLegal(options, rows[k]) {
          GrowingOptionsKeepsLegal(old_options, SelectorItem(id, parentId), rows[k]);
        }
      }
    }

    /**
     * The "add rows" handler: appends `rowsCount` empty rows whose ids continue from the
     * last row's id. Existing rows and the options are untouched.
     */
    method OnAddButtonClick(rowsCount: nat)
      requires Valid()
      modifies this
      ensures Valid() && options == old(options)
      ensures |rows| == |old(rows)| + rowsCount && rows[..|old(rows)|] == old(rows)
      ensures rows == old(rows) + EmptyRows(old(rows)[|old(rows)| - 1].id + 1, rowsCount)
      ensures forall k :: |old(rows)| <= k < |rows| ==> rows[k] == EmptyRow(k + 1)
      ensures old(Consistent()) ==> Consistent()
    {
      var lastId := rows[|rows| - 1].id + 1;
      var items := EmptyRows(lastId, rowsCount);
      AppendKeepsNumbering(rows, rowsCount);
      rows := rows + items;
      forall k | |old(rows)| <= k < |rows| ensures rows[k] == EmptyRow(k + 1) {
        RowsEqual(rows[k], EmptyRow(k + 1));
      }
      if old(Consistent()) {
        forall k | 0 <= k < |rows| ensures RowLegal(options, rows[k]) {
          if k >= |old(rows)| {
            EmptyRowLegal(options, k + 1);
          }
        }
      }
    }
  }
}
