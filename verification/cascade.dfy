/**
 * What a selection does to a row, and the lineage invariant it keeps: every set cell is one
 * of the options its column offers, so its parent is the previous cell's item and an empty
 * cell is followed only by empty cells.
 */
module Cascade {
  import opened Types
  import opened OptionForest

  /**
   * The row after `v` is chosen at `level`: that cell becomes `v`, every later cell becomes
   * null, and the id and the earlier cells stay as they were.
   */
  function Selected(row: TableRow, level: int, v: Cell): (r: TableRow)
    requires 1 <= level <= 5
    ensures r.id == row.id
    ensures forall j :: 1 <= j < level ==> Get(r, j) == Get(row, j)
    ensures Get(r, level) == v
    ensures forall j :: level < j <= 5 ==> Get(r, j) == None
  {
    match level
    case 1 => TableRow(row.id, v, None, None, None, None)
    case 2 => TableRow(row.id, row.col1, v, None, None, None)
    case 3 => TableRow(row.id, row.col1, row.col2, v, None, None)
    case 4 => TableRow(row.id, row.col1, row.col2, row.col3, v, None)
    case _ => TableRow(row.id, row.col1, row.col2, row.col3, row.col4, v)
  }

  /**
   * A value the dropdown can hand to its change handler: one of the offered items, or
   * nothing when the selection is cleared.
   */
  predicate Offered(options: seq<SelectorItem>, row: TableRow, level: int, v: Cell)
    requires 1 <= level <= 5
  {
    v.None? || v.value in CellOptions(options, row, level).items
  }

  /** Every set cell of `row` is among the options its column offers. */
  ghost predicate RowLegal(options: seq<SelectorItem>, row: TableRow)
  {
    forall level :: 1 <= level <= 5 && Get(row, level).Some? ==>
      Get(row, level).value in CellOptions(options, row, level).items
  }

  /** The link between a cell and the cell after it. */
  predicate Linked(prev: Cell, next: Cell)
  {
    (prev.None? ==> next.None?) &&
    (next.Some? && prev.Some? ==> next.value.parentId == Some(prev.value.id))
  }

  /**
   * Lineage consistency: the first cell holds a root, and each later cell is empty when the
   * one before it is, and otherwise holds a child of the item before it.
   */
  predicate Lineage(row: TableRow)
  {
    (row.col1.Some? ==> IsRoot(row.col1.value)) &&
    Linked(row.col1, row.col2) && Linked(row.col2, row.col3) &&
    Linked(row.col3, row.col4) && Linked(row.col4, row.col5)
  }

  /** A legal row has a consistent lineage, and every item in it is in the option list. */
  lemma LegalRowHasLineage(options: seq<SelectorItem>, row: TableRow)
    requires RowLegal(options, row)
    ensures Lineage(row)
    ensures forall level :: 1 <= level <= 5 && Get(row, level).Some? ==> Get(row, level).value in options
  {
    forall level | 1 <= level <= 5 && Get(row, level).Some?
      ensures Get(row, level).value in options && Admits(row, level, Get(row, level).value)
    {
    }
    assert Get(row, 1) == row.col1 && Get(row, 2) == row.col2 && Get(row, 3) == row.col3;
    assert Get(row, 4) == row.col4 && Get(row, 5) == row.col5;
  }

  /**
   * Conversely, a row with a consistent lineage whose items are all listed is legal, so
   * legality is exactly lineage consistency over the listed items.
   */
  lemma LineageRowIsLegal(options: seq<SelectorItem>, row: TableRow)
    requires Lineage(row)
    requires forall level :: 1 <= level <= 5 && Get(row, level).Some? ==> Get(row, level).value in options
    ensures RowLegal(options, row)
  {
    assert Get(row, 1) == row.col1 && Get(row, 2) == row.col2 && Get(row, 3) == row.col3;
    assert Get(row, 4) == row.col4 && Get(row, 5) == row.col5;
  }

  /**
   * Stated on lineage alone: choosing an offered value (or clearing the cell) keeps a
   * consistent lineage consistent.
   */
  lemma {:induction false} SelectKeepsLineage(options: seq<SelectorItem>, row: TableRow, level: int, v: Cell)
    requires 1 <= level <= 5
    requires Lineage(row)
    requires Offered(options, row, level, v)
    ensures Lineage(Selected(row, level, v))
  {
    var r := Selected(row, level, v);
    assert Get(r, 1) == r.col1 && Get(r, 2) == r.col2 && Get(r, 3) == r.col3;
    assert Get(r, 4) == r.col4 && Get(r, 5) == r.col5;
    assert Get(row, 1) == row.col1 && Get(row, 2) == row.col2 && Get(row, 3) == row.col3;
    assert Get(row, 4) == row.col4 && Get(row, 5) == row.col5;
  }

  /** A row with every cell null is legal under any option list. */
  lemma EmptyRowLegal(options: seq<SelectorItem>, id: int)
    ensures RowLegal(options, EmptyRow(id))
  {
  }

  /** The offer at `level` depends on the row only through the cell before it. */
  lemma OfferDependsOnPrevious(options: seq<SelectorItem>, a: TableRow, b: TableRow, level: int)
    requires 1 <= level <= 5
    requires level > 1 ==> Get(a, level - 1) == Get(b, level - 1)
    ensures CellOptions(options, a, level) == CellOptions(options, b, level)
  {
  }

  /**
   * Choosing an offered value (or clearing the cell) keeps a legal row legal: the earlier
   * cells and their offers are untouched, the new value is offered, and the later cells are null.
   */
  lemma {:induction false} SelectKeepsLegal(options: seq<SelectorItem>, row: TableRow, level: int, v: Cell)
    requires 1 <= level <= 5
    requires RowLegal(options, row)
    requires Offered(options, row, level, v)
    ensures RowLegal(options, Selected(row, level, v))
    ensures Lineage(Selected(row, level, v))
  {
    var r := Selected(row, level, v);
    forall j | 1 <= j <= 5 && Get(r, j).Some?
      ensures Get(r, j).value in CellOptions(options, r, j).items
    {
      if j < level {
        OfferDependsOnPrevious(options, r, row, j);
      } else {
        OfferDependsOnPrevious(options, r, row, level);
      }
    }
    LegalRowHasLineage(options, r);
  }

  /** Appending to the option list keeps every legal row legal. */
  lemma {:induction false} GrowingOptionsKeepsLegal(options: seq<SelectorItem>, n: SelectorItem, row: TableRow)
    requires RowLegal(options, row)
    ensures RowLegal(options + [n], row)
  {
    forall level | 1 <= level <= 5 && Get(row, level).Some?
      ensures Get(row, level).value in CellOptions(options + [n], row, level).items
    {
      CellOptionsAppend(options, n, row, level);
    }
  }

  /**
   * An item created at a level of a legal row has a parent that is already listed, so
   * the list stays a forest.
   */
  lemma {:induction false} CreateKeepsForest(options: seq<SelectorItem>, row: TableRow, level: int, id: string)
    requires 1 <= level <= 5
    requires RowLegal(options, row) && ParentsExist(options)
    ensures ParentsExist(options + [CreatedItem(row, level, id)])
  {
    var n := CreatedItem(row, level, id);
    if n.parentId.Some? {
      LegalRowHasLineage(options, row);
      var prev := Get(row, level - 1).value;
      assert prev in options && prev.id == n.parentId.value;
    }
    AppendKeepsForest(options, n);
  }

  /**
   * Creating an item and then choosing it keeps a legal row legal whenever the cell is
   * enabled: the created item is among the cell's offers.
   */
  lemma {:induction false} CreateThenSelectKeepsLegal(options: seq<SelectorItem>, row: TableRow, level: int, id: string)
    requires 1 <= level <= 5
    requires RowLegal(options, row)
    requires !CellOptions(options, row, level).disabled
    ensures var n := CreatedItem(row, level, id);
      RowLegal(options + [n], Selected(row, level, Some(n)))
  {
    var n := CreatedItem(row, level, id);
    CreatedItemShared(options, row, level, id, row);
    GrowingOptionsKeepsLegal(options, n, row);
    SelectKeepsLegal(options + [n], row, level, Some(n));
  }
}
