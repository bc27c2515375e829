/**
 * The shared option list and the rule that decides which items a cell may offer.
 * The list is append-only; an item's `parentId` ties it to an item one level up.
 */
module OptionForest {
  import opened Types

  /** The options the table starts with: two chains 1.1 -> 2.1 -> ... -> 5.1 and 1.2 -> ... -> 5.2. */
  function InitialOptions(): (options: seq<SelectorItem>)
  {
    [ SelectorItem("1.1", None), SelectorItem("1.2", None),
      SelectorItem("2.1", Some("1.1")), SelectorItem("2.2", Some("1.2")),
      SelectorItem("3.1", Some("2.1")), SelectorItem("3.2", Some("2.2")),
      SelectorItem("4.1", Some("3.1")), SelectorItem("4.2", Some("3.2")),
      SelectorItem("5.1", Some("4.1")), SelectorItem("5.2", Some("4.2")) ]
  }

  /** `Array.prototype.filter`: the elements of `s` that satisfy `p`, in their order in `s`. */
  function Filter<T(!new)>(s: seq<T>, p: T -> bool): (r: seq<T>)
    ensures |r| <= |s|
    ensures forall x :: x in r <==> x in s && p(x)
  {
    if s == [] then []
    else
      assert forall x :: x in s <==> x == s[0] || x in s[1..];
      (if p(s[0]) then [s[0]] else []) + Filter(s[1..], p)
  }

  /** Filtering a concatenation filters each part and keeps the parts in order. */
  lemma {:induction false} FilterConcat<T(!new)>(a: seq<T>, b: seq<T>, p: T -> bool)
    ensures Filter(a + b, p) == Filter(a, p) + Filter(b, p)
  {
    if a == [] {
      assert a + b == b;
    } else {
      assert (a + b)[0] == a[0];
      assert (a + b)[1..] == a[1..] + b;
      FilterConcat(a[1..], b, p);
    }
  }

  /** Filters by predicates that agree everywhere give the same sequence. */
  lemma {:induction false} FilterCongruent<T(!new)>(s: seq<T>, p: T -> bool, q: T -> bool)
    requires forall x :: p(x) == q(x)
    ensures Filter(s, p) == Filter(s, q)
  {
    if s != [] {
      FilterCongruent(s[1..], p, q);
    }
  }

  /** Filtering by a predicate no element satisfies gives the empty sequence. */
  lemma {:induction false} FilterNone<T(!new)>(s: seq<T>, p: T -> bool)
    requires forall i :: 0 <= i < |s| ==> !p(s[i])
    ensures Filter(s, p) == []
  {
    if s != [] {
      FilterNone(s[1..], p);
    }
  }

  /** An item shown in the first column: `!item.parentId`, so a null or an empty-string parent. */
  predicate IsRoot(item: SelectorItem)
  {
    item.parentId.None? || item.parentId.value == ""
  }

  /**
   * The legal-choice rule: an item may fill `level` of `row` when it is a root (level 1),
   * or when the previous cell of the row is set and the item's parent is that cell's id.
   */
  predicate Admits(row: TableRow, level: int, item: SelectorItem)
    requires 1 <= level <= 5
  {
    if level == 1 then IsRoot(item)
    else Get(row, level - 1).Some? && item.parentId == Some(Get(row, level - 1).value.id)
  }

  /** What a cell renderer hands to the dropdown: the offered items and whether it is disabled. */
  datatype Offer = Offer(items: seq<SelectorItem>, disabled: bool)

  /** The options offered at `level` of `row`, computed as the cell renderer does. */
  function CellOptions(options: seq<SelectorItem>, row: TableRow, level: int): (r: Offer)
    requires 1 <= level <= 5
    ensures r.disabled <==> level > 1 && Get(row, level - 1).None?
    ensures r.disabled ==> r.items == []
    ensures forall x :: x in r.items <==> x in options && Admits(row, level, x)
  {
    if level == 1 then
      Offer(Filter(options, item => IsRoot(item)), false)
    else
      match Get(row, level - 1)
      case Some(prev) => Offer(Filter(options, (item: SelectorItem) => item.parentId == Some(prev.id)), false)
      case None => Offer([], true)
  }

  /** The offered items are exactly the options the rule admits, in option-list order. */
  lemma {:induction false} CellOptionsInListOrder(options: seq<SelectorItem>, row: TableRow, level: int)
    requires 1 <= level <= 5
    ensures CellOptions(options, row, level).items == Filter(options, item => Admits(row, level, item))
  {
    var admits := item => Admits(row, level, item);
    if level == 1 {
      FilterCongruent(options, item => IsRoot(item), admits);
    } else if prev :| Get(row, level - 1) == Some(prev) {
      FilterCongruent(options, (item: SelectorItem) => item.parentId == Some(prev.id), admits);
    } else {
      FilterNone(options, admits);
    }
  }

  /**
   * Appending an item to the option list keeps every offer's earlier items and their order,
   * and adds the new item at the end exactly when the rule admits it.
   */
  lemma {:induction false} CellOptionsAppend(options: seq<SelectorItem>, n: SelectorItem, row: TableRow, level: int)
    requires 1 <= level <= 5
    ensures CellOptions(options + [n], row, level).disabled == CellOptions(options, row, level).disabled
    ensures CellOptions(options + [n], row, level).items ==
            CellOptions(options, row, level).items + (if Admits(row, level, n) then [n] else [])
  {
    var admits := item => Admits(row, level, item);
    CellOptionsInListOrder(options, row, level);
    CellOptionsInListOrder(options + [n], row, level);
    FilterConcat(options, [n], admits);
    assert Filter([n], admits) == (if Admits(row, level, n) then [n] else []) by {
      assert [n][1..] == [];
    }
  }

  /**
   * The parent given to an item created at `level` of `row`: the id of the row's previous cell
   * when that cell is set. At level 1 the previous column is the numeric row id, whose `.id` is
   * undefined, so the item gets no parent.
   */
  function ParentFor(row: TableRow, level: int): (p: Option<string>)
    requires 1 <= level <= 5
    ensures p.Some? <==> level > 1 && Get(row, level - 1).Some?
    ensures p.Some? ==> p.value == Get(row, level - 1).value.id
  {
    if level == 1 then None
    else
      match Get(row, level - 1)
      case Some(prev) => Some(prev.id)
      case None => None
  }

  /** The item that creating `id` at `level` of `row` appends to the option list. */
  function CreatedItem(row: TableRow, level: int, id: string): SelectorItem
    requires 1 <= level <= 5
  {
    SelectorItem(id, ParentFor(row, level))
  }

  /**
   * A created item is shared: every row whose previous cell at `level` has the same id as the
   * creating row's (any row at all, at level 1) is offered the new item, appended after the
   * options it was offered before.
   */
  lemma {:induction false} CreatedItemShared(options: seq<SelectorItem>, row: TableRow, level: int, id: string, other: TableRow)
    requires 1 <= level <= 5
    requires level > 1 ==> Get(row, level - 1).Some? && Get(other, level - 1).Some? &&
                           Get(other, level - 1).value.id == Get(row, level - 1).value.id
    ensures var n := CreatedItem(row, level, id);
      CellOptions(options + [n], other, level).items == CellOptions(options, other, level).items + [n]
  {
    var n := CreatedItem(row, level, id);
    assert Admits(other, level, n);
    CellOptionsAppend(options, n, other, level);
  }

  /**
   * Every parent reference names an item that comes earlier in the list, so the list is a
   * forest given in a topological order.
   */
  ghost predicate ParentsExist(options: seq<SelectorItem>)
  {
    forall i :: 0 <= i < |options| && options[i].parentId.Some? ==>
      exists j :: 0 <= j < i && options[j].id == options[i].parentId.value
  }

  /** The seed list is such a forest. */
  lemma InitialOptionsForest()
    ensures ParentsExist(InitialOptions())
  {
    var o := InitialOptions();
    forall i | 0 <= i < |o| && o[i].parentId.Some?
      ensures exists j :: 0 <= j < i && o[j].id == o[i].parentId.value
    {
      assert o[i - 2].id == o[i].parentId.value;
    }
  }

  /** Appending an item whose parent (if any) is already listed keeps the list a forest. */
  lemma AppendKeepsForest(options: seq<SelectorItem>, n: SelectorItem)
    requires ParentsExist(options)
    requires n.parentId.Some? ==> exists x :: x in options && x.id == n.parentId.value
    ensures ParentsExist(options + [n])
  {
    var o := options + [n];
    forall i | 0 <= i < |o| && o[i].parentId.Some?
      ensures exists j :: 0 <= j < i && o[j].id == o[i].parentId.value
    {
      if i < |options| {
        var j :| 0 <= j < i && options[j].id == options[i].parentId.value;
        assert o[j] == options[j];
      } else {
        var x :| x in options && x.id == n.parentId.value;
        var j :| 0 <= j < |options| && options[j] == x;
        assert o[j] == x;
      }
    }
  }
}
