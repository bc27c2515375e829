/** The fixed column schema, its header labels, and blocks of fresh empty rows. */
module Schema {
  import opened Types

  /** Number of grid columns: the id column followed by col1..col5. */
  const ColumnCount: int := 6

  /** Number of rows the table starts with. */
  const InitialRowCount: nat := 100

  function DigitChar(d: int): (c: char)
    requires 0 <= d < 10
    ensures '0' <= c <= '9'
  {
    ('0' as int + d) as char
  }

  /** The column keys in grid order: "id", then "col1" .. "col5". */
  function Cols(): (cols: seq<string>)
    ensures |cols| == ColumnCount
  {
    seq(ColumnCount, idx requires 0 <= idx < ColumnCount =>
      if idx == 0 then "id" else "col" + [DigitChar(idx)])
  }

  /** The key of the column at grid position `idx`. */
  function ColNameByIndex(idx: int): string
    requires 0 <= idx < ColumnCount
  {
    Cols()[idx]
  }

  /** Column keys name the row's fields: position 0 is the id, position i >= 1 is hierarchy level i. */
  lemma {:induction false} ColumnKeys(i: int, j: int)
    requires 0 <= i < ColumnCount && 0 <= j < ColumnCount
    ensures ColNameByIndex(0) == "id"
    ensures 1 <= i ==> ColNameByIndex(i) == "col" + [DigitChar(i)] && |ColNameByIndex(i)| == 4
    ensures i != j ==> ColNameByIndex(i) != ColNameByIndex(j)
  {
    var a, b := ColNameByIndex(i), ColNameByIndex(j);
    if i != j {
      if i == 0 || j == 0 {
        assert |a| != |b|;
      } else {
        assert a[3] != b[3];
      }
    }
  }

  /** Upper-case of an ASCII letter; other characters are left alone. */
  function ToUpper(c: char): (u: char)
    ensures 'a' <= c <= 'z' ==> 'A' <= u <= 'Z' && u as int == c as int - 32
    ensures !('a' <= c <= 'z') ==> u == c
  {
    if 'a' <= c <= 'z' then (c as int - 32) as char else c
  }

  function Min(a: int, b: int): int { if a <= b then a else b }

  /**
   * JavaScript `s.substring(start, end)` for non-negative bounds: both bounds are clamped
   * to |s| and swapped when the first exceeds the second.
   */
  function Substring(s: string, start: nat, end: nat): (r: string)
    ensures |r| <= |s|
    ensures start <= end <= |s| ==> r == s[start..end]
    ensures |s| <= start && |s| <= end ==> r == []
    ensures start <= |s| < end ==> r == s[start..]
    ensures end < start ==> r == Substring(s, end, start)
  {
    var a, b := Min(start, |s|), Min(end, |s|);
    if a <= b then s[a..b] else s[b..a]
  }

  /**
   * The header label of a column key: "id" is upper-cased whole; any other key has its
   * first character upper-cased and a space inserted after its first three characters.
   */
  function FormatColHeader(arg: string): (r: string)
    requires |arg| > 0
    ensures arg == "id" ==> r == "ID"
    ensures arg != "id" ==>
      var m := Min(|arg|, 3);
      |r| == |arg| + 1 && r[0] == ToUpper(arg[0]) && r[m] == ' ' && r[1..m] + r[m + 1..] == arg[1..]
  {
    if arg == "id" then
      seq(|arg|, i requires 0 <= i < |arg| => ToUpper(arg[i]))
    else
      var m := Min(|arg|, 3);
      var middle, rest := Substring(arg, 1, 3), Substring(arg, 3, |arg|);
      assert middle == arg[1..m] && rest == arg[m..];
      var r := [ToUpper(arg[0])] + middle + " " + rest;
      assert r[1..m] == middle && r[m + 1..] == rest;
      assert arg[1..] == middle + rest;
      r
  }

  /** The id column is headed "ID" and hierarchy column i is headed "Col i"; no two headers coincide. */
  lemma {:induction false} ColumnHeaders(i: int, j: int)
    requires 0 <= i < ColumnCount && 0 <= j < ColumnCount
    ensures FormatColHeader(ColNameByIndex(0)) == "ID"
    ensures 1 <= i ==> FormatColHeader(ColNameByIndex(i)) == "Col " + [DigitChar(i)]
    ensures i != j ==> FormatColHeader(ColNameByIndex(i)) != FormatColHeader(ColNameByIndex(j))
  {
    ColumnKeys(i, j);
    ColumnKeys(j, i);
    var a, b := FormatColHeader(ColNameByIndex(i)), FormatColHeader(ColNameByIndex(j));
    if 1 <= i {
      assert ColNameByIndex(i) == "col" + [DigitChar(i)];
    }
    if 1 <= j {
      assert ColNameByIndex(j) == "col" + [DigitChar(j)];
    }
    if i != j {
      if i == 0 || j == 0 {
        assert |a| != |b|;
      } else {
        assert a[4] != b[4];
      }
    }
  }

  /** The six column keys and their header labels, written out. */
  lemma ColumnLabels()
    ensures Cols() == ["id", "col1", "col2", "col3", "col4", "col5"]
    ensures FormatColHeader("id") == "ID"
    ensures FormatColHeader("col1") == "Col 1" && FormatColHeader("col2") == "Col 2"
    ensures FormatColHeader("col3") == "Col 3" && FormatColHeader("col4") == "Col 4"
    ensures FormatColHeader("col5") == "Col 5"
  {
    var c := Cols();
    assert c[0] == "id";
    assert c[1] == "col" + [DigitChar(1)] == "col1";
    assert c[2] == "col" + [DigitChar(2)] == "col2";
    assert c[3] == "col" + [DigitChar(3)] == "col3";
    assert c[4] == "col" + [DigitChar(4)] == "col4";
    assert c[5] == "col" + [DigitChar(5)] == "col5";
  }

  /** `count` rows with every cell null and ids firstId, firstId + 1, ... */
  function EmptyRows(firstId: int, count: nat): (rows: seq<TableRow>)
    ensures |rows| == count && AllEmpty(rows)
    ensures forall idx :: 0 <= idx < count ==> rows[idx].id == firstId + idx
  {
    var rows := seq(count, idx requires 0 <= idx < count => EmptyRow(firstId + idx));
    assert forall idx :: 0 <= idx < count ==> rows[idx] == EmptyRow(firstId + idx);
    rows
  }

  /** The row at position k has id k + 1. */
  ghost predicate Numbered(rows: seq<TableRow>)
  {
    forall k :: 0 <= k < |rows| ==> rows[k].id == k + 1
  }

  /** Every hierarchy cell of every row is null. */
  ghost predicate AllEmpty(rows: seq<TableRow>)
  {
    forall k, j :: 0 <= k < |rows| && 1 <= j <= 5 ==> Get(rows[k], j) == None
  }

  /** The seed rows: ids 1..100, all cells null. */
  function InitialData(): (rows: seq<TableRow>)
  {
    EmptyRows(1, InitialRowCount)
  }

  /** The seed store has 100 rows, numbered from 1 by position, with every cell null. */
  lemma InitialDataShape()
    ensures |InitialData()| == 100 && Numbered(InitialData()) && AllEmpty(InitialData())
  {
  }

  /**
   * Appending a block that starts at lastId + 1 keeps the store numbered by position:
   * the store grows by exactly `count`, earlier rows are kept, and the new ids are
   * lastId + 1 .. lastId + count with every cell null.
   */
  lemma {:induction false} AppendKeepsNumbering(rows: seq<TableRow>, count: nat)
    requires |rows| > 0 && Numbered(rows)
    ensures var lastId := rows[|rows| - 1].id;
      var grown := rows + EmptyRows(lastId + 1, count);
      |grown| == |rows| + count && grown[..|rows|] == rows && Numbered(grown) &&
      AllEmpty(grown[|rows|..]) &&
      forall k :: |rows| <= k < |grown| ==> lastId < grown[k].id <= lastId + count
  {
    var lastId := rows[|rows| - 1].id;
    var grown := rows + EmptyRows(lastId + 1, count);
    var block := EmptyRows(lastId + 1, count);
    assert lastId == |rows|;
    forall k | 0 <= k < |grown| ensures grown[k].id == k + 1 {
      if k >= |rows| {
        assert grown[k] == block[k - |rows|] == EmptyRow(lastId + 1 + k - |rows|);
      }
    }
    assert grown[..|rows|] == rows;
    assert grown[|rows|..] == block;
  }
}
