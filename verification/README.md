# Cascading choice table — Dafny model

This project models the engine behind an editable grid of cascading choices. Every row has an
`id` and five hierarchy cells `col1`..`col5`. The cell at level 1 offers the items of a shared
option list that have no parent. The cell at level i > 1 offers the children of the item chosen
at level i - 1 of the same row, and it is disabled when that cell is empty. Choosing a value
clears every later cell of the row. Typing a new value creates an item whose parent is the
previous cell's item. That item is appended to the shared list, so every row with the same
previous choice is offered it too. "Add rows" appends a block of empty rows whose ids continue
from the last row's id.

Modules, one per part of `src/App.tsx` (plus the record types of `src/types.ts`):

- `Types` (types.dfy): `SelectorItem`, nullable cells, the five-cell `TableRow`, cell access by level.
- `Schema` (schema.dfy): the column keys `id, col1..col5`, the header formatter, blocks of empty
  rows, the 100 seed rows.
- `OptionForest` (options.dfy): the seed options, `filter`, the legal-choice rule and the
  offer a cell renderer computes, the parent of a created item, the forest property.
- `Cascade` (cascade.dfy): the effect of a selection on a row, and the lineage invariant
  ("every set cell is offered by its column") with the lemmas that select, create and
  append keep it.
- `TableState` (table.dfy): class `Table` with the option list and the rows as fields, and
  the handlers `OnChange`, `OnCreate` and `OnAddButtonClick` as methods.

The column index is an explicit level 1..5. Rows are addressed by their position in the
store, as the renderer addresses them through the row index.

The handlers validate nothing, and the model keeps that:

- `OnChange` stores whatever value the dropdown hands it. So the lineage invariant is proved
  for offered values (and for a cleared selection), not enforced by the handler.
- The create handler does not check for duplicate ids or unknown parents. It does not refuse
  a create at a level whose previous cell is empty: the new item then gets no parent. It also
  does not select the new item. Whether the dropdown then selects it is up to the dropdown widget.
  `Cascade.CreateThenSelectKeepsLegal` shows that doing so keeps the row legal.
- "Add rows" accepts a count of 0 (nothing is appended) rather than rejecting it.
- A cleared dropdown hands the change handler `undefined`. It is modelled as an empty cell,
  so a user can empty a cell, and the later cells are cleared with it.
- `!item.parentId` is JavaScript truthiness, so an item whose parent is the empty string is
  also offered in the first column (`OptionForest.IsRoot`).
- At level 1 the create handler reads the numeric row id as the "previous value". Its `.id`
  is undefined, so the new item gets no parent and is offered in the first column.

## Model

| member | source | states |
|---|---|---|
| Types.SetCell | src/App.tsx:152-156 | writing one cell of a row sets that cell and leaves the id and the other four cells unchanged |
| Types.EmptyRow | src/App.tsx:193-200 | a new row carries the given id and has all five cells null |
| Schema.Cols | src/App.tsx:14-16 | the schema has exactly six column keys |
| Schema.ColumnKeys | src/App.tsx:14-18 | position 0 is "id", position i in 1..5 is "col" followed by the digit i, and distinct positions have distinct keys |
| Schema.Substring | src/App.tsx:35 | JavaScript `substring`: in range it is the slice; an end past the string is clamped (the rest from start); both bounds past the end give the empty string; a start above the end swaps the bounds |
| Schema.FormatColHeader | src/App.tsx:31-37 | "id" becomes "ID"; any other key gets its first letter upper-cased and a space inserted after its first three characters, and removing that space gives back the rest of the key |
| Schema.ColumnHeaders | src/App.tsx:14-37 | the id column is headed "ID", hierarchy column i is headed "Col i", and no two columns share a header |
| Schema.ColumnLabels | src/App.tsx:14-37 | the keys are exactly "id", "col1" .. "col5", and their headers are "ID", "Col 1" .. "Col 5" |
| Schema.EmptyRows | src/App.tsx:193-200 | a block of `count` rows, all cells null, with ids firstId, firstId+1, ... by position |
| Schema.InitialDataShape | src/App.tsx:20-29 | the seed store has 100 rows, the row at position k has id k+1, and every cell is null |
| Schema.AppendKeepsNumbering | src/App.tsx:189-202 | appending a block from lastId+1 grows the store by exactly `count`, keeps earlier rows, gives new ids lastId+1..lastId+count with null cells, and keeps "position k has id k+1" |
| OptionForest.Filter | src/App.tsx:112-114 | `filter` keeps exactly the elements that satisfy the predicate and never lengthens the list |
| OptionForest.FilterConcat | src/App.tsx:112-114 | filtering a concatenation is the concatenation of the filtered parts, so `filter` keeps list order |
| OptionForest.CellOptions | src/App.tsx:98-118 | a cell is disabled exactly when its level is above 1 and the previous cell is empty (then it offers nothing); it offers exactly the listed items the legal-choice rule admits: roots at level 1, children of the previous cell's item above |
| OptionForest.CellOptionsInListOrder | src/App.tsx:100-114 | the offered items are the admitted options in option-list order |
| OptionForest.CellOptionsAppend | src/App.tsx:110-139 | after an item is appended to the option list, every cell offers what it offered before, in the same order, followed by the new item exactly when the rule admits it; its disabled flag is unchanged |
| OptionForest.ParentFor | src/App.tsx:126-138 | a created item has a parent exactly when its level is above 1 and the previous cell is set, and that parent is the previous cell's id |
| OptionForest.CreatedItemShared | src/App.tsx:126-139 | a created item is offered, after the earlier offers, to every row whose previous cell has the same id as the creating row's (to every row at level 1) |
| OptionForest.InitialOptionsForest | src/App.tsx:39-80 | every parent in the seed option list names an item listed before it |
| OptionForest.AppendKeepsForest | src/App.tsx:139 | appending an item whose parent is already listed keeps every parent listed before its children |
| Cascade.Selected | src/App.tsx:151-162 | choosing at level i sets that cell, nulls every later cell, and keeps the id and the earlier cells; at level 5 nothing is cleared |
| Cascade.LegalRowHasLineage | src/App.tsx:98-118 | a row whose set cells are all offered has a consistent lineage: the first cell holds a root, an empty cell is followed by empty cells, each set cell's parent is the previous cell's id, and every item in it is listed |
| Cascade.LineageRowIsLegal | src/App.tsx:98-118 | conversely, a row with a consistent lineage whose items are all listed is legal, so legality is exactly lineage consistency over listed items |
| Cascade.SelectKeepsLineage | src/App.tsx:100-162 | choosing an offered value (or clearing the cell) keeps a consistent lineage consistent |
| Cascade.EmptyRowLegal | src/App.tsx:193-200 | a row with all cells null is legal under any option list |
| Cascade.OfferDependsOnPrevious | src/App.tsx:102-118 | what a cell offers depends on the row only through the previous cell |
| Cascade.SelectKeepsLegal | src/App.tsx:100-162 | choosing an offered value (or clearing the cell) keeps a legal row legal and its lineage consistent |
| Cascade.GrowingOptionsKeepsLegal | src/App.tsx:139 | appending to the option list keeps every legal row legal |
| Cascade.CreateKeepsForest | src/App.tsx:126-139 | an item created from a legal row has a parent that is already listed, so the list stays a forest |
| Cascade.CreateThenSelectKeepsLegal | src/App.tsx:126-162 | on an enabled cell, creating an item and then choosing it keeps the row legal |
| TableState.Table.constructor | src/App.tsx:84-87 | the table starts with the seed options and the 100 seed rows, numbered and consistent |
| TableState.Table.OnChange | src/App.tsx:148-169 | the chosen row becomes the selection's result and every other row and the options are unchanged; the table stays numbered, and stays consistent when the value was offered or cleared |
| TableState.Table.OnCreate | src/App.tsx:126-147 | exactly one item is appended at the end of the option list, with the parent `ParentFor` gives; rows are unchanged and consistency is kept |
| TableState.Table.OnAddButtonClick | src/App.tsx:189-205 | the store grows by the count, earlier rows are kept, the row at each new position k has id k+1 and null cells, options are unchanged, and numbering and consistency are kept |

## Left out

- `src/Selector.tsx` only passes props to the external `react-dropdown-select` component. That component is not part of this model: which values it hands to the change handler, and whether it selects a created item, are taken as inputs (`Cascade.Offered`, `Cascade.CreateThenSelectKeepsLegal`).
- Redrawing (`redrawRows`, the `getRowNode` loops at src/App.tsx:141-146 and 163-167) and `setRowData` (src/App.tsx:204) are rendering side effects with no effect on the model's state.
- The grid's block cache and windowing (`cacheBlockSize`, `maxBlocksInCache`, src/App.tsx:221-225) live inside the grid library. No repository code implements them, so windowed retrieval and LRU eviction are not modelled.
- Column definitions, the JSX layout, styling and `console.log` are presentation only.
- Parsing the row count from the text box with `Number(...)` is input handling. The count is a natural-number parameter. A text that parses to NaN or a negative number yields no rows in JavaScript, which is the count 0 here.
- The column index comes from the grid's column instance id; the model takes an explicit level 1..5. The renderer's early `return null` for index 0 belongs to the id column, which has no dropdown.
- In the source, row objects are mutated in place. `Table.rows` is a sequence of row values, and a change replaces the value at the row's position. Aliasing between the grid's row data and the store is not modelled.
- Schema.ToUpper: upper-cases ASCII letters only, whereas JavaScript's `toUpperCase` follows Unicode case mapping; every column key is ASCII.
- A concrete check that the seed table's first column offers exactly "1.1" and "1.2" is not included. It follows from `OptionForest.CellOptionsInListOrder` applied to the seed list.
