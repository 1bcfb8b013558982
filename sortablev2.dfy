/**
 * The second table component: it receives the rows as a prop, sorts a
 * `slice()` copy with a comparator chosen by the direction, and shows an
 * arrow on the active column only.
 */
module SortableV2 {
  import opened Records
  import opened ArraySort
  import Table

  /**
   * The comparator `sortedData` passes to `sort`: `a[k] > b[k] ? 1 : -1` in
   * `ascn` order, `b[k] > a[k] ? 1 : -1` in `desc` order.
   */
  function ComparatorFor(sortKey: Field, sortOrder: SortOrder): (c: Comparator)
    ensures c.key == sortKey
    ensures c.Ascending? <==> sortOrder == Ascn
  {
    if sortOrder == Ascn then Ascending(sortKey) else Descending(sortKey)
  }

  /** The state of the `SortableTable` component and the `data` prop it was given. */
  class SortableTable {
    const data: array<Person>
    var sortKey: Field
    var sortOrder: SortOrder

    /** Mounting with `data`: `useState("last_name")` and `useState("ascn")`. */
    constructor (data: array<Person>)
      ensures this.data == data
      ensures sortKey == LastName && sortOrder == Ascn
    {
      this.data := data;
      sortKey := LastName;
      sortOrder := Ascn;
    }

    /**
     * `sortedData()`: sorts a `slice()` copy of `data` with the direction's
     * comparator. `data` is not in any modifies clause, so it is left as it was.
     */
    method SortedData() returns (r: seq<Person>)
      ensures r == Sorted(data[..], ComparatorFor(sortKey, sortOrder))
      ensures multiset(r) == multiset(data[..])
      ensures data.Length == 0 ==> r == []
      ensures DistinctKeys(data[..], sortKey) && sortOrder == Ascn ==> StrictlyAscending(r, sortKey)
      ensures DistinctKeys(data[..], sortKey) && sortOrder == Desc ==> StrictlyDescending(r, sortKey)
    {
      ghost var s := data[..];
      var copy := Slice(data);
      var c := ComparatorFor(sortKey, sortOrder);
      SortInPlace(copy, c);
      r := copy[..];
      assert r == Sorted(s, c);
      SortedMultiset(s, c);
      if DistinctKeys(s, sortKey) {
        SortedOrdered(s, c);
        OrderedMeans(r, c);
      }
    }

    /**
     * `changeSort(key)`: the order flips on every click, whether or not
     * `key` is already the active column, and `key` becomes active.
     */
    method ChangeSort(key: Field)
      modifies this
      ensures sortKey == key
      ensures sortOrder == Flip(old(sortOrder))
    {
      sortOrder := Flip(sortOrder);
      sortKey := key;
    }
  }

  /** Clicking the same column twice restores the order and leaves that column active. */
  method ClickTwice(t: SortableTable, key: Field)
    modifies t
    ensures t.sortKey == key && t.sortOrder == old(t.sortOrder)
  {
    t.ChangeSort(key);
    t.ChangeSort(key);
  }

  /** From the initial state, clicking `id` gives `(id, desc)`: a new column does not reset to ascending. */
  method ClickIdFromStart(data: array<Person>) returns (key: Field, order: SortOrder)
    ensures key == Id && order == Desc
  {
    var t := new SortableTable(data);
    t.ChangeSort(Id);
    key, order := t.sortKey, t.sortOrder;
  }

  /**
   * With pairwise-distinct keys the flipped comparator yields the ascending
   * result read backwards: a strictly ordered arrangement is unique.
   */
  lemma DescIsReversedAscn(s: seq<Person>, sortKey: Field)
    requires DistinctKeys(s, sortKey)
    ensures Sorted(s, Descending(sortKey)) == Reversed(Sorted(s, Ascending(sortKey)))
  {
    var asc, desc := Sorted(s, Ascending(sortKey)), Sorted(s, Descending(sortKey));
    SortedOrdered(s, Ascending(sortKey));
    SortedOrdered(s, Descending(sortKey));
    ReversedOrdered(asc, Ascending(sortKey));
    SortedMultiset(s, Ascending(sortKey));
    SortedMultiset(s, Descending(sortKey));
    ReversedMultiset(asc);
    OrderedUnique(desc, Reversed(asc), Descending(sortKey));
  }

  /** With pairwise-distinct keys both components show the same rows for the same state. */
  lemma AgreesWithTable(s: seq<Person>, sortKey: Field, sortOrder: SortOrder)
    requires DistinctKeys(s, sortKey)
    ensures Sorted(s, ComparatorFor(sortKey, sortOrder)) == Table.SortedView(s, sortKey, sortOrder == Desc)
  {
    if sortOrder == Desc {
      DescIsReversedAscn(s, sortKey);
    }
  }

  /**
   * On a tie the reversal fails: two different rows with the same key keep
   * their input order under both comparators, so the `desc` result is not
   * the `ascn` result read backwards.
   */
  lemma TieBreaksReversal(a: Person, b: Person, sortKey: Field)
    requires a != b && KeyOf(a, sortKey) == KeyOf(b, sortKey)
    ensures Sorted([a, b], Descending(sortKey)) == [a, b]
    ensures Reversed(Sorted([a, b], Ascending(sortKey))) == [b, a]
    ensures Sorted([a, b], Descending(sortKey)) != Reversed(Sorted([a, b], Ascending(sortKey)))
  {
    GtTie(a, b, sortKey);
    assert [a, b][..1] == [a];
    assert [a][..0] == [];
    assert [a, b] != [b, a] by {
      assert [a, b][0] == a != b == [b, a][0];
    }
  }

  /** What the header button of one column shows. */
  datatype Indicator = NoArrow | Shown(arrow: Arrow)

  /** One header cell: the key as its caption and the button's indicator. */
  datatype HeaderCell = HeaderCell(key: Field, caption: string, indicator: Indicator)

  /** The columns in display order. */
  const Keys: seq<Field> := [Id, FirstName, LastName, Email, Gender, IpAddress]

  /** Every field has exactly one column. */
  lemma KeysCoverEachField(f: Field)
    ensures exists i :: 0 <= i < |Keys| && Keys[i] == f
    ensures forall i, j :: 0 <= i < |Keys| && 0 <= j < |Keys| && Keys[i] == f && Keys[j] == f ==> i == j
  {
    match f
    case Id => assert Keys[0] == f;
    case FirstName => assert Keys[1] == f;
    case LastName => assert Keys[2] == f;
    case Email => assert Keys[3] == f;
    case Gender => assert Keys[4] == f;
    case IpAddress => assert Keys[5] == f;
  }

  /** `sortKey === key ? (sortOrder === "ascn" ? up : down) : null`. */
  function HeaderIndicator(sortKey: Field, sortOrder: SortOrder, key: Field): (indicator: Indicator)
    ensures indicator.Shown? <==> sortKey == key
    ensures indicator.Shown? ==> (indicator.arrow == ArrowUpward <==> sortOrder == Ascn)
  {
    if sortKey == key then Shown(if sortOrder == Ascn then ArrowUpward else ArrowDownward) else NoArrow
  }

  /** The header row for a sort state. */
  function HeaderRow(sortKey: Field, sortOrder: SortOrder): (row: seq<HeaderCell>)
    ensures |row| == |Keys|
    ensures forall i :: 0 <= i < |row| ==> row[i].key == Keys[i] && row[i].caption == FieldName(Keys[i])
    ensures forall i :: 0 <= i < |row| ==> (row[i].indicator.Shown? <==> row[i].key == sortKey)
    ensures forall i :: 0 <= i < |row| && row[i].indicator.Shown? ==> (row[i].indicator.arrow == ArrowUpward <==> sortOrder == Ascn)
  {
    seq(|Keys|, i requires 0 <= i < |Keys| => HeaderCell(Keys[i], FieldName(Keys[i]), HeaderIndicator(sortKey, sortOrder, Keys[i])))
  }

  /** Exactly one column, the active one, shows an arrow. */
  lemma ExactlyOneArrow(sortKey: Field, sortOrder: SortOrder)
    ensures var row := HeaderRow(sortKey, sortOrder);
      exists i :: 0 <= i < |row| && row[i].indicator.Shown?
    ensures var row := HeaderRow(sortKey, sortOrder);
      forall i, j :: 0 <= i < |row| && 0 <= j < |row| && row[i].indicator.Shown? && row[j].indicator.Shown? ==> i == j
  {
    KeysCoverEachField(sortKey);
    var row := HeaderRow(sortKey, sortOrder);
    var i :| 0 <= i < |Keys| && Keys[i] == sortKey;
    assert row[i].indicator.Shown?;
  }
}
