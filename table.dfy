/**
 * The first table component: a free-standing `sortData` that sorts a copy
 * ascending and reverses it for the descending order, the component's sort
 * state with its `changeSort` transition, and the header's sort buttons.
 */
module Table {
  import opened Records
  import opened ArraySort

  /** The rows `sortData` returns for `tableData`, a key and the `reverse` flag. */
  function SortedView(tableData: seq<Person>, sortKey: Field, reverse: bool): (rows: seq<Person>)
    ensures |rows| == |tableData|
  {
    var ascending := Sorted(tableData, Ascending(sortKey));
    if reverse then Reversed(ascending) else ascending
  }

  /**
   * `sortData`: sorts a `slice()` copy of `tableData` with
   * `a[k] > b[k] ? 1 : -1` and reverses the copy when `reverse` is set.
   * `tableData` is not in any modifies clause, so it is left as it was.
   */
  method SortData(tableData: array<Person>, sortKey: Field, reverse: bool) returns (r: seq<Person>)
    ensures r == SortedView(tableData[..], sortKey, reverse)
    ensures multiset(r) == multiset(tableData[..])
    ensures tableData.Length == 0 ==> r == []
    ensures DistinctKeys(tableData[..], sortKey) && !reverse ==> StrictlyAscending(r, sortKey)
    ensures DistinctKeys(tableData[..], sortKey) && reverse ==> StrictlyDescending(r, sortKey)
  {
    ghost var s := tableData[..];
    var copy := Slice(tableData);
    SortInPlace(copy, Ascending(sortKey));
    if reverse {
      ReverseInPlace(copy);
    }
    r := copy[..];
    assert r == SortedView(s, sortKey, reverse);
    SortedViewPermutation(s, sortKey, reverse);
    if DistinctKeys(s, sortKey) {
      SortedViewOrdered(s, sortKey, reverse);
    }
  }

  /** Sorting and reversing keep every row exactly as often as it occurs in the input. */
  lemma SortedViewPermutation(s: seq<Person>, sortKey: Field, reverse: bool)
    ensures multiset(SortedView(s, sortKey, reverse)) == multiset(s)
  {
    SortedMultiset(s, Ascending(sortKey));
    ReversedMultiset(Sorted(s, Ascending(sortKey)));
  }

  /** With pairwise-distinct keys the rows are strictly ascending, or strictly descending once reversed. */
  lemma SortedViewOrdered(s: seq<Person>, sortKey: Field, reverse: bool)
    requires DistinctKeys(s, sortKey)
    ensures !reverse ==> StrictlyAscending(SortedView(s, sortKey, reverse), sortKey)
    ensures reverse ==> StrictlyDescending(SortedView(s, sortKey, reverse), sortKey)
  {
    var ascending := Sorted(s, Ascending(sortKey));
    SortedOrdered(s, Ascending(sortKey));
    OrderedMeans(ascending, Ascending(sortKey));
    ReversedOrdered(ascending, Ascending(sortKey));
    OrderedMeans(Reversed(ascending), Descending(sortKey));
  }

  /** The reversed result is the ascending result read backwards, ties included. */
  lemma ReverseIsBackwards(s: seq<Person>, sortKey: Field, i: nat)
    requires i < |s|
    ensures SortedView(s, sortKey, true)[i] == SortedView(s, sortKey, false)[|s| - 1 - i]
  {
  }

  /** The state of the `SortableTable` component: the active column and the direction. */
  class SortableTable {
    var sortKey: Field
    var sortOrder: SortOrder

    /** Mounting: `useState("last_name")` and `useState("ascn")`. */
    constructor ()
      ensures sortKey == LastName && sortOrder == Ascn
    {
      sortKey := LastName;
      sortOrder := Ascn;
    }

    /**
     * `changeSort(key)`: the order flips on every click, whether or not
     * `key` is already the active column, and `key` becomes active.
     */
    method ChangeSort(key: Field)
      modifies this
      ensures sortKey == key
      ensures sortOrder == Flip(old(sortOrder))
    {
      sortOrder := Flip(sortOrder);
      sortKey := key;
    }

    /** The body rows: `sortData` on the data, the active key, and `reverse` iff the order is `desc`. */
    method SortedData(data: array<Person>) returns (r: seq<Person>)
      ensures r == SortedView(data[..], sortKey, sortOrder == Desc)
      ensures multiset(r) == multiset(data[..])
      ensures DistinctKeys(data[..], sortKey) && sortOrder == Ascn ==> StrictlyAscending(r, sortKey)
      ensures DistinctKeys(data[..], sortKey) && sortOrder == Desc ==> StrictlyDescending(r, sortKey)
    {
      r := SortData(data, sortKey, sortOrder == Desc);
    }
  }

  /** Clicking the same column twice restores the order and leaves that column active. */
  method ClickTwice(t: SortableTable, key: Field)
    modifies t
    ensures t.sortKey == key && t.sortOrder == old(t.sortOrder)
  {
    t.ChangeSort(key);
    t.ChangeSort(key);
  }

  /** From the initial state, clicking `id` gives `(id, desc)`: a new column does not reset to ascending. */
  method ClickIdFromStart() returns (key: Field, order: SortOrder)
    ensures key == Id && order == Desc
  {
    var t := new SortableTable();
    t.ChangeSort(Id);
    key, order := t.sortKey, t.sortOrder;
  }

  /** One entry of the `headers` list. */
  datatype Column = Column(key: Field, caption: string)

  /** The columns in display order, with their captions. */
  const Headers: seq<Column> := [
    Column(Id, "ID"),
    Column(FirstName, "First name"),
    Column(LastName, "Last name"),
    Column(Email, "Email"),
    Column(Gender, "Gender"),
    Column(IpAddress, "IP address")
  ]

  /** Every field has exactly one column. */
  lemma HeadersCoverEachField(f: Field)
    ensures exists i :: 0 <= i < |Headers| && Headers[i].key == f
    ensures forall i, j :: 0 <= i < |Headers| && 0 <= j < |Headers| && Headers[i].key == f && Headers[j].key == f ==> i == j
  {
    match f
    case Id => assert Headers[0].key == f;
    case FirstName => assert Headers[1].key == f;
    case LastName => assert Headers[2].key == f;
    case Email => assert Headers[3].key == f;
    case Gender => assert Headers[4].key == f;
    case IpAddress => assert Headers[5].key == f;
  }

  const PlainClass := "sort-button"
  const ReverseClass := "sort-button sort-reverse"

  /** What one header cell draws: the caption and the sort button's class and icon. */
  datatype HeaderCell = HeaderCell(key: Field, caption: string, className: string, icon: Arrow)

  /** `SortButton`'s class: reversed only on the active column in `desc` order. */
  function ButtonClass(sortOrder: SortOrder, columnKey: Field, sortKey: Field): (className: string)
    ensures className == ReverseClass || className == PlainClass
    ensures className == ReverseClass <==> sortKey == columnKey && sortOrder == Desc
  {
    if sortKey == columnKey && sortOrder == Desc then ReverseClass else PlainClass
  }

  /** `SortButton`'s icon: it depends on the order only. */
  function ButtonIcon(sortOrder: SortOrder): (icon: Arrow)
    ensures icon == ArrowUpward <==> sortOrder == Ascn
  {
    if sortOrder == Ascn then ArrowUpward else ArrowDownward
  }

  /** The header row for a sort state. */
  function HeaderRow(sortKey: Field, sortOrder: SortOrder): (row: seq<HeaderCell>)
    ensures |row| == |Headers|
    ensures forall i :: 0 <= i < |row| ==> row[i].key == Headers[i].key && row[i].caption == Headers[i].caption
    ensures forall i :: 0 <= i < |row| ==> (row[i].className == ReverseClass <==> row[i].key == sortKey && sortOrder == Desc)
    ensures forall i :: 0 <= i < |row| ==> (row[i].icon == ArrowUpward <==> sortOrder == Ascn)
  {
    seq(|Headers|, i requires 0 <= i < |Headers| =>
      HeaderCell(Headers[i].key, Headers[i].caption, ButtonClass(sortOrder, Headers[i].key, sortKey), ButtonIcon(sortOrder)))
  }

  /**
   * In `desc` order exactly one button, the active column's, carries the
   * reverse class; in `ascn` order none does. Every button shows the same icon.
   */
  lemma ReverseClassOnActiveColumnOnly(sortKey: Field, sortOrder: SortOrder)
    ensures var row := HeaderRow(sortKey, sortOrder);
      (exists i :: 0 <= i < |row| && row[i].className == ReverseClass) <==> sortOrder == Desc
    ensures var row := HeaderRow(sortKey, sortOrder);
      forall i, j :: 0 <= i < |row| && 0 <= j < |row| && row[i].className == ReverseClass && row[j].className == ReverseClass ==> i == j
    ensures var row := HeaderRow(sortKey, sortOrder);
      forall i, j :: 0 <= i < |row| && 0 <= j < |row| ==> row[i].icon == row[j].icon
  {
    HeadersCoverEachField(sortKey);
    var row := HeaderRow(sortKey, sortOrder);
    if sortOrder == Desc {
      var i :| 0 <= i < |Headers| && Headers[i].key == sortKey;
      assert row[i].className == ReverseClass;
    }
  }
}
