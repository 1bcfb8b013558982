# Sortable person table: a Dafny model

The repository renders a list of person records (`id`, `first_name`,
`last_name`, `email`, `gender`, `ip_address`) as a table whose header has one
sort button per column. It has two nearly identical components:

- `table.tsx` sorts with a free-standing `sortData`: it copies the rows with
  `slice()`, sorts the copy with the comparator `a[k] > b[k] ? 1 : -1`, and
  reverses the sorted copy for descending order. Each header button gets the
  class `sort-button sort-reverse` on the active column in `desc` order, and
  every button shows an up or down arrow chosen by the order alone.
- `sortablev2.tsx` receives the rows as a `data` prop. It sorts a `slice()`
  copy with `a[k] > b[k] ? 1 : -1` for `ascn` and `b[k] > a[k] ? 1 : -1` for
  `desc`, and shows an arrow only on the active column.

In both, the state is `(sortKey, sortOrder)`, starting at
`(last_name, ascn)`. `changeSort(key)` always flips the order and makes `key`
the active column. It never resets to ascending when a different column is
clicked.

The model has four modules:

- `Records` (records.dfy): the `Person` record, the `Field` selector, a field's
  value (`id` a number, the rest strings), JavaScript's `>` on those values
  (numeric for `id`, lexicographic by character for strings), and the
  properties of `>` that sorting needs (irreflexive, transitive, total on
  distinct values).
- `ArraySort` (array_sort.dfy): the two comparators and the array operations
  `slice()`, `sort(cmp)` and `reverse()`. ECMAScript leaves the algorithm of
  `sort` to the engine. It guarantees a permutation, and an ordered result only
  when the comparator is consistent (section 23.1.3.30 of ECMA-262). That
  definition includes `comparefn(a, a) = 0`, and both comparators here return
  -1 on `(a, a)` (`CompareSelf`). So the standard promises no order at all for
  these comparators, even with distinct keys. On a pair of rows the
  comparators are antisymmetric exactly when the keys differ
  (`CompareAntisymmetricIffDistinct`). The engine sort is modelled as an
  in-place insertion sort on an `array`, driven by the same `cmp(a, b) > 0`
  test and proved equal to the function `Sorted`. The lemmas about `Sorted`
  state two things: a permutation always, and strict order when the keys are
  pairwise distinct. The second holds for the model's engine and for any
  engine that compares only rows at different positions; ECMAScript does not guarantee
  it. The first `ensures` of `Table.SortData` and of both `SortedData` methods
  equates the result with `Sorted` or `SortedView`, so it also fixes the order
  of tied rows to the model engine's. Only the permutation and distinct-key
  `ensures` are meant as properties of the components.
- `Table` (table.dfy): `sortData`, the component state as a class with
  `ChangeSort`, and the header's sort buttons.
- `SortableV2` (sortablev2.dfy): the prop-holding component as a class with
  `SortedData` and `ChangeSort`, the header arrows, and how its two comparators
  relate. With distinct keys, `desc` is the reverse of `ascn`, and the two
  components then show the same rows. With ties the reversal can fail.

The input rows are an `array<Person>` that no sorting method lists in a
`modifies` clause. Dafny's frame check therefore proves that `sortData` and
`sortedData` leave the caller's array unchanged: all sorting happens on the
fresh `Slice` copy.

A toggle that resets to ascending when a different column is clicked would
be the more common design. Both source files instead always flip the order,
and the model follows them (`ChangeSort`, `ClickIdFromStart`).

## Model

| member | source | states |
|---|---|---|
| `Records.FieldName` | sortablev2.tsx:57 | every field's property name is non-empty, so the `!sortKey` guard at table.tsx:32 never fires |
| `Records.KeyOf` | sortablev2.tsx:16-23 | `p[f]` is a number exactly for the `id` field and a string for the other five |
| `Records.StrLess` | table.tsx:35 | string `<`: it never holds between equal strings, and a proper prefix is always smaller |
| `Records.Greater` | table.tsx:35 | `x > y` holds only between different values of the same kind (two numbers or two strings) |
| `Records.Gt` | sortablev2.tsx:40 | `a[k] > b[k]` holds only when the two rows' keys differ |
| `Records.StrLessTransitive` | table.tsx:35 | string `<` (first differing character decides, proper prefix smaller) is transitive |
| `Records.StrLessTotal` | table.tsx:35 | two different strings always compare one way or the other |
| `Records.GtTie` | table.tsx:35 | equal values: `a[k] > b[k]` and `b[k] > a[k]` are both false |
| `Records.GtAsymmetric` | table.tsx:35 | `a[k] > b[k]` rules out `b[k] > a[k]` |
| `Records.GtTransitive` | table.tsx:35 | `>` on one field is transitive |
| `Records.GtTotal` | table.tsx:35 | two different values of one field are ordered by `>` one way or the other |
| `Records.Flip` | table.tsx:89 | the toggled order always differs from the current one (two orders, so toggling alternates) |
| `ArraySort.Compare` | sortablev2.tsx:40 | both comparators return only 1 or -1, never 0 |
| `ArraySort.CompareSelf` | table.tsx:35 | a row compared with itself gives -1, not the 0 a consistent comparator must give |
| `ArraySort.CompareAntisymmetricIffDistinct` | table.tsx:35 | the comparator's sign flips on swapped arguments if and only if the two keys differ; on a tie both orders give -1 |
| `ArraySort.Flipped` | sortablev2.tsx:40 | the `desc` comparator and the `ascn` one use the same key and opposite directions |
| `ArraySort.OrderedMeans` | sortablev2.tsx:40 | ordered by the ascending comparator means strictly ascending by the key; by the descending one, strictly descending |
| `ArraySort.Insert` | table.tsx:34-36 | one insertion step of the engine sort makes the sequence one row longer (its contents: `InsertMultiset`, its order: `InsertOrdered`) |
| `ArraySort.Sorted` | table.tsx:34-36 | the engine sort keeps the length (its contents: `SortedMultiset`, its order: `SortedOrdered`) |
| `ArraySort.InsertMultiset` | table.tsx:34-36 | one insertion step adds exactly the inserted row to the multiset of rows |
| `ArraySort.InsertOrdered` | table.tsx:34-36 | inserting a row whose key differs from all others keeps a sorted sequence sorted |
| `ArraySort.SortedMultiset` | table.tsx:34-36 | the sorted result is a permutation of the input: same rows, none added, dropped or duplicated |
| `ArraySort.SortedOrdered` | sortablev2.tsx:39-41 | with pairwise-distinct keys the sorted result is ordered by the comparator |
| `ArraySort.OrderedUnique` | sortablev2.tsx:40 | two sequences strictly ordered by the same comparator with the same multiset of rows are equal |
| `ArraySort.Reversed` | table.tsx:39 | the reversed sequence has the same length and holds element `n-1-i` at position `i` |
| `ArraySort.ReversedMultiset` | table.tsx:38-40 | reversing keeps the multiset of rows |
| `ArraySort.ReversedOrdered` | table.tsx:38-40 | a sequence ordered by a comparator, reversed, is ordered by the flipped comparator |
| `ArraySort.Slice` | table.tsx:34 | `slice()` returns a fresh array with the same elements |
| `ArraySort.InsertInPlace` | table.tsx:34-36 | one pass of the in-place sort turns the array into `Insert(prefix, a[i])` followed by the untouched rest |
| `ArraySort.SortInPlace` | table.tsx:34-36 | the in-place sort leaves exactly `Sorted(old contents)` in the array |
| `ArraySort.ReverseInPlace` | table.tsx:38-39 | `reverse()` leaves exactly the old contents read backwards |
| `Table.SortData` | table.tsx:23-43 | the result is the ascending sort, reversed when `reverse` is set; it is a permutation of `tableData`; an empty input gives `[]`; with distinct keys it is strictly ascending, or strictly descending when `reverse` is set; `tableData` is not modified |
| `Table.SortedView` | table.tsx:34-42 | the rows `sortData` returns are as many as the input's (contents, order and reversal: the three lemmas below) |
| `Table.SortedViewPermutation` | table.tsx:34-42 | for both `reverse` values the result holds the input rows exactly as often |
| `Table.SortedViewOrdered` | table.tsx:34-40 | with distinct keys: strictly ascending without `reverse`, strictly descending with it |
| `Table.ReverseIsBackwards` | table.tsx:38-42 | the `reverse = true` result is the `reverse = false` result read backwards, ties included |
| `Table.SortableTable.constructor` | table.tsx:71-72 | the initial state is `(last_name, ascn)` |
| `Table.SortableTable.ChangeSort` | table.tsx:88-91 | `sortKey` becomes `key` and the order flips, whatever the previous key |
| `Table.SortableTable.SortedData` | table.tsx:83-86 | the body rows are `sortData` with `reverse` exactly when the order is `desc`: a permutation of the data, and ordered by the active key when keys are distinct |
| `Table.ClickTwice` | table.tsx:88-91 | two clicks on one column restore the order and leave that column active |
| `Table.ClickIdFromStart` | table.tsx:71-91 | from the initial state, clicking `id` gives `(id, desc)` |
| `Table.HeadersCoverEachField` | table.tsx:74-81 | the header list holds every field exactly once |
| `Table.ButtonClass` | table.tsx:59-63 | the class is one of the two strings, and the reverse one exactly on the active column in `desc` order |
| `Table.ButtonIcon` | table.tsx:65 | the icon is up exactly when the order is `ascn` |
| `Table.HeaderRow` | table.tsx:56-66 | one cell per header; a cell has the reverse class exactly when it is the active column and the order is `desc`; the icon is up exactly when the order is `ascn`, on every column |
| `Table.ReverseClassOnActiveColumnOnly` | table.tsx:59-65 | some button has the reverse class exactly when the order is `desc`, never more than one does, and all buttons show the same icon |
| `SortableV2.ComparatorFor` | sortablev2.tsx:40 | the comparator sorts by the active key, ascending exactly when the order is `ascn` |
| `SortableV2.SortableTable.constructor` | sortablev2.tsx:33-35 | the component keeps its `data` prop and starts at `(last_name, ascn)` |
| `SortableV2.SortableTable.SortedData` | sortablev2.tsx:38-42 | the result is the sort of `data` by the direction's comparator: a permutation of `data`, empty for empty `data`, strictly ascending (`ascn`) or strictly descending (`desc`) when keys are distinct; `data` is not modified |
| `SortableV2.SortableTable.ChangeSort` | sortablev2.tsx:45-48 | `sortKey` becomes `key` and the order flips, whatever the previous key |
| `SortableV2.ClickTwice` | sortablev2.tsx:45-48 | two clicks on one column restore the order and leave that column active |
| `SortableV2.ClickIdFromStart` | sortablev2.tsx:34-48 | from the initial state, clicking `id` gives `(id, desc)` |
| `SortableV2.DescIsReversedAscn` | sortablev2.tsx:40 | with distinct keys the `desc` comparator's result equals the `ascn` result reversed |
| `SortableV2.AgreesWithTable` | sortablev2.tsx:38-42 | with distinct keys both components show the same rows for the same `(sortKey, sortOrder)` |
| `SortableV2.TieBreaksReversal` | sortablev2.tsx:40 | for any two different rows with the same key, the model's `desc` result keeps them in input order and so is not the `ascn` result reversed |
| `SortableV2.KeysCoverEachField` | sortablev2.tsx:57 | the header key list holds every field exactly once |
| `SortableV2.HeaderIndicator` | sortablev2.tsx:61 | an arrow is shown exactly on the active column, up exactly when the order is `ascn` |
| `SortableV2.HeaderRow` | sortablev2.tsx:57-63 | one cell per key, captioned by the key's name; a cell shows an arrow exactly when it is the active column, up exactly when the order is `ascn` |
| `SortableV2.ExactlyOneArrow` | sortablev2.tsx:61 | exactly one column, the active one, shows an arrow |

## Left out

- Rendering with JSX and MUI (`TableContainer`, `TableRow`, `Button`, the icon components), CSS and the sticky header. The model keeps only the data each header cell draws. Body rows are the sorted sequence itself.
- React hook mechanics: `useState` batching, re-rendering and `useCallback` memoization. `changeSort` is a method that updates the two fields at once.
- Loading `data.json` and the wiring in `App.tsx`. The rows are a parameter, or a constructor argument of the `sortablev2.tsx` component.
- The `if (!sortKey) return tableData;` guard in `sortData`. It cannot fire: every `Field` names a non-empty property.
- The engine's own sorting algorithm. `ArraySort.SortInPlace` is one algorithm ECMAScript admits. The first `ensures` of `Table.SortData`, `Table.SortableTable.SortedData` and `SortableV2.SortableTable.SortedData` fixes the order of tied rows to this engine's. `Table.ReverseIsBackwards` holds for any deterministic engine. `SortableV2.TieBreaksReversal` holds for the model's insertion sort only.
- `ArraySort.SortedOrdered`: the strict order for pairwise-distinct keys is assumed of the engine, not guaranteed by ECMAScript. The comparators return -1 on `(a, a)`, so they are not consistent comparators and the standard leaves the order implementation-defined. The same holds for the distinct-key `ensures` of `Table.SortData`, of both `SortedData` methods and of `Table.SortedViewOrdered`. They hold for the model's engine and for any engine that compares only rows at different positions.
- JavaScript's comparison of mixed types. Keys are compared only within one field.
- `Records.StrLess`: compares Dafny characters (Unicode scalar values), whereas JavaScript compares UTF-16 code units. The two orders differ only between characters above U+FFFF and those in U+E000–U+FFFF.
- `Records.Person`: `id` is an unbounded integer. JavaScript numbers are doubles, which does not matter for the integer ids the data holds.
