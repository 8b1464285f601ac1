/** The data logic of the generic `DataTable`: the search filter, the column
    sort with its placement of missing values, the sort toggle, and the page
    slice. Rows are records from column keys to cells; a cell is either a
    value (by its string form) or `null`, and a key a row lacks reads as
    `undefined`, which the table treats like `null`. */
module DataTable {
  import opened Wrappers
  import Seqs
  import Text
  import StrOrder
  import Sorting
  import Pagination

  datatype Cell = Null | Val(text: string)

  type Row = map<string, Cell>

  /** `r[key]`, with `null` and `undefined` both read as `None`. */
  function Value(r: Row, key: string): Option<string> {
    if key in r && r[key].Val? then Some(r[key].text) else None
  }

  /** `String(r[k] ?? "")`. */
  function CellText(r: Row, key: string): string {
    Value(r, key).GetOr("")
  }

  /** `searchableKeys ?? columns.map((c) => c.key)`: the keys the search
      looks at are the given searchable keys, or every column's key when none
      are given. */
  function SearchKeys(searchable: Option<seq<string>>, columns: seq<string>): (keys: seq<string>)
    ensures searchable.None? ==> keys == columns
    ensures searchable.Some? ==> keys == searchable.value
  {
    searchable.GetOr(columns)
  }

  /** Some key's text, lower-cased, contains `needle`. */
  predicate RowMatches(r: Row, keys: seq<string>, needle: string) {
    exists i :: 0 <= i < |keys| && Text.Includes(Text.ToLower(CellText(r, keys[i])), needle)
  }

  function Keep(keys: seq<string>, needle: string): Row -> bool {
    (r: Row) => RowMatches(r, keys, needle)
  }

  /** `filtered`: every row when the query is blank after trimming; otherwise
      the rows some searched key of which contains the lower-cased (untrimmed)
      query, ignoring case. */
  function Filtered(rows: seq<Row>, q: string, keys: seq<string>): (f: seq<Row>)
    ensures |f| <= |rows|
    ensures Text.IsBlank(q) ==> f == rows
    ensures !Text.IsBlank(q) ==> forall r :: r in f <==> r in rows && RowMatches(r, keys, Text.ToLower(q))
  {
    if Text.IsBlank(q) then rows else Seqs.Filter(rows, Keep(keys, Text.ToLower(q)))
  }

  /** A non-blank query keeps the matching rows in their original order: the
      k-th kept row is the row at the k-th (ascending) index that matches, and
      every matching index is kept. */
  lemma FilteredInOrder(rows: seq<Row>, q: string, keys: seq<string>)
    requires !Text.IsBlank(q)
    ensures var pos := Seqs.Positions(rows, Keep(keys, Text.ToLower(q)));
            |Filtered(rows, q, keys)| == |pos|
            && forall k :: 0 <= k < |pos| ==> Filtered(rows, q, keys)[k] == rows[pos[k]]
  {
    var p := Keep(keys, Text.ToLower(q));
    assert Filtered(rows, q, keys) == Seqs.Filter(rows, p);
    Seqs.FilterIsPositions(rows, p);
  }

  datatype Dir = Asc | Desc

  datatype SortState = SortState(key: string, dir: Dir)

  /** `dir === "asc" ? 1 : -1`. */
  function Sign(dir: Dir): int {
    if dir == Asc then 1 else -1
  }

  /** The comparator of `sorted` on two values of the sort key: missing
      values tie with each other, come first ascending and last descending;
      present values compare by string, reversed when descending. */
  function CompareValues(av: Option<string>, bv: Option<string>, dir: Dir): (c: int)
    ensures av.None? && bv.None? ==> c == 0
    ensures av.None? && bv.Some? ==> (c < 0 <==> dir == Asc) && c != 0
    ensures av.Some? && bv.None? ==> (c > 0 <==> dir == Asc) && c != 0
    ensures av.Some? && bv.Some? ==> (c == 0 <==> av == bv)
  {
    if av.None? && bv.None? then 0
    else if av.None? then (if dir == Asc then -1 else 1)
    else if bv.None? then (if dir == Asc then 1 else -1)
    else StrOrder.Cmp(av.value, bv.value) * Sign(dir)
  }

  function Comparator(s: SortState): (Row, Row) -> int {
    (a: Row, b: Row) => CompareValues(Value(a, s.key), Value(b, s.key), s.dir)
  }

  lemma CompareValuesTotal(a: Option<string>, b: Option<string>, dir: Dir)
    ensures CompareValues(a, b, dir) <= 0 || CompareValues(b, a, dir) <= 0
  {
    if a.Some? && b.Some? {
      StrOrder.CmpAntisymmetric(a.value, b.value);
    }
  }

  lemma CompareValuesTransitive(a: Option<string>, b: Option<string>, c: Option<string>, dir: Dir)
    requires CompareValues(a, b, dir) <= 0 && CompareValues(b, c, dir) <= 0
    ensures CompareValues(a, c, dir) <= 0
  {
    if a.Some? && b.Some? && c.Some? {
      if dir == Asc {
        StrOrder.CmpTransitive(a.value, b.value, c.value);
      } else {
        StrOrder.CmpAntisymmetric(a.value, b.value);
        StrOrder.CmpAntisymmetric(b.value, c.value);
        StrOrder.CmpAntisymmetric(a.value, c.value);
        StrOrder.CmpTransitive(c.value, b.value, a.value);
      }
    }
  }

  /** The column comparator orders every pair of rows, transitively, so the
      sort yields an ordered table. */
  lemma ComparatorTotalPreorder(s: SortState)
    ensures Sorting.TotalPreorder(Comparator(s))
  {
    var cmp := Comparator(s);
    forall a: Row, b: Row ensures cmp(a, b) <= 0 || cmp(b, a) <= 0 {
      CompareValuesTotal(Value(a, s.key), Value(b, s.key), s.dir);
    }
    forall a: Row, b: Row, c: Row | cmp(a, b) <= 0 && cmp(b, c) <= 0 ensures cmp(a, c) <= 0 {
      CompareValuesTransitive(Value(a, s.key), Value(b, s.key), Value(c, s.key), s.dir);
    }
  }

  /** `sorted`: the filtered rows unchanged without a sort, else a stable sort
      of a copy by the column comparator. */
  function Sorted(f: seq<Row>, sort: Option<SortState>): (r: seq<Row>)
    ensures |r| == |f| && multiset(r) == multiset(f)
    ensures sort.None? ==> r == f
  {
    if sort.None? then f else Sorting.Sort(f, Comparator(sort.value))
  }

  /** With a sort, rows come out ordered by the column; missing values come
      before every present one ascending and after every present one
      descending. */
  lemma SortedPlacesMissing(f: seq<Row>, s: SortState)
    ensures Sorting.SortedBy(Sorted(f, Some(s)), Comparator(s))
    ensures s.dir == Asc ==> forall i, j ::
      (0 <= i < j < |f| && Value(Sorted(f, Some(s))[j], s.key).None?) ==> Value(Sorted(f, Some(s))[i], s.key).None?
    ensures s.dir == Desc ==> forall i, j ::
      (0 <= i < j < |f| && Value(Sorted(f, Some(s))[i], s.key).None?) ==> Value(Sorted(f, Some(s))[j], s.key).None?
  {
    ComparatorTotalPreorder(s);
    Sorting.SortIsSorted(f, Comparator(s));
    var r := Sorted(f, Some(s));
    forall i, j | 0 <= i < j < |r|
      ensures s.dir == Asc && Value(r[j], s.key).None? ==> Value(r[i], s.key).None?
      ensures s.dir == Desc && Value(r[i], s.key).None? ==> Value(r[j], s.key).None?
    {
      assert Comparator(s)(r[i], r[j]) <= 0;
      assert CompareValues(Value(r[i], s.key), Value(r[j], s.key), s.dir) <= 0;
    }
  }

  /** The rows whose `key` column holds `v`. */
  function HasValue(key: string, v: Option<string>): Row -> bool {
    r => Value(r, key) == v
  }

  /** The sort is stable: rows with the same value in the sort column keep
      their relative order. */
  lemma SortedStable(f: seq<Row>, s: SortState, v: Option<string>)
    ensures Seqs.Filter(Sorted(f, Some(s)), HasValue(s.key, v)) == Seqs.Filter(f, HasValue(s.key, v))
  {
    forall a: Row, b: Row | HasValue(s.key, v)(a) && HasValue(s.key, v)(b)
      ensures Comparator(s)(a, b) <= 0
    {
      assert CompareValues(v, v, s.dir) == 0;
    }
    Sorting.SortStable(f, Comparator(s), HasValue(s.key, v));
  }

  /** The table's own state. */
  datatype State = State(q: string, page: int, sort: Option<SortState>)

  /** `toggleSort(key)`: back to page 1; ascending on `key` unless the table
      is already sorted on `key`, in which case the direction flips. */
  function ToggleSort(st: State, key: string): (r: State)
    ensures r.q == st.q && r.page == 1
    ensures r.sort.Some? && r.sort.value.key == key
    ensures st.sort.Some? && st.sort.value.key == key ==> r.sort.value.dir != st.sort.value.dir
    ensures st.sort.None? || st.sort.value.key != key ==> r.sort.value.dir == Asc
  {
    var sort := if st.sort.None? || st.sort.value.key != key then SortState(key, Asc)
                else SortState(key, if st.sort.value.dir == Asc then Desc else Asc);
    st.(page := 1, sort := Some(sort))
  }

  /** Two clicks on the header the table is sorted by restore the sort; on a
      new header they give descending order. */
  lemma ToggleSortTwice(st: State, key: string)
    ensures st.sort.Some? && st.sort.value.key == key ==>
      ToggleSort(ToggleSort(st, key), key).sort == st.sort
    ensures ToggleSort(ToggleSort(st, key), key).sort == Some(SortState(key, if st.sort.Some? && st.sort.value.key == key then st.sort.value.dir else Desc))
  {
  }

  /** `Array.prototype.slice(start, end)`: negative bounds count from the
      end, and both bounds are clamped to the sequence. */
  function JsSlice<T>(s: seq<T>, start: int, end: int): (r: seq<T>)
    ensures |r| <= |s|
    ensures 0 <= start && start <= end ==> |r| == Pagination.Min(end, |s|) - Pagination.Min(start, |s|)
    ensures 0 <= start ==> forall i :: 0 <= i < |r| ==> start + i < |s| && r[i] == s[start + i]
  {
    var from := if start < 0 then (if |s| + start < 0 then 0 else |s| + start) else Pagination.Min(start, |s|);
    var to := if end < 0 then (if |s| + end < 0 then 0 else |s| + end) else Pagination.Min(end, |s|);
    if from < to then s[from..to] else []
  }

  /** `slice`: the rows of `page`. Whatever the page number, at most a page
      of rows is shown; from page 1 on, they are the consecutive rows from the
      page's first index. */
  function PageSlice(sorted: seq<Row>, page: int, pageSize: nat): (r: seq<Row>)
    ensures |r| <= pageSize
    ensures page >= 1 ==> forall i :: 0 <= i < |r| ==>
      (page - 1) * pageSize + i < |sorted| && r[i] == sorted[(page - 1) * pageSize + i]
  {
    assert page * pageSize == (page - 1) * pageSize + pageSize;
    assert page >= 1 ==> (page - 1) * pageSize >= 0 by {
      if page >= 1 {
        Pagination.MulMono(0, page - 1, pageSize);
      }
    }
    JsSlice(sorted, (page - 1) * pageSize, page * pageSize)
  }

  /** On an existing page, the rows shown are exactly those the pagination
      control announces: items `first` to `last`. */
  lemma PageSliceMatchesPagination(sorted: seq<Row>, page: int, pageSize: nat)
    requires pageSize > 0 && |sorted| > 0
    requires 1 <= page <= Pagination.PageCount(|sorted|, pageSize)
    ensures var v := Pagination.Render(page, pageSize, |sorted|);
            |PageSlice(sorted, page, pageSize)| == v.last - v.first + 1
            && forall i :: 0 <= i < |PageSlice(sorted, page, pageSize)| ==>
                 PageSlice(sorted, page, pageSize)[i] == sorted[v.first - 1 + i]
  {
    Pagination.RenderInRange(page, pageSize, |sorted|);
    Pagination.MulMono(0, page - 1, pageSize);
    assert page * pageSize == (page - 1) * pageSize + pageSize;
  }

  /** What the table shows: the current page of the sorted rows that the
      query keeps, searching the `searchable` keys or, without them, every
      column key. */
  function Visible(rows: seq<Row>, columns: seq<string>, searchable: Option<seq<string>>, st: State, pageSize: nat): (v: seq<Row>)
    ensures |v| <= pageSize
    ensures Text.IsBlank(st.q) && st.sort.None? && st.page == 1 && |rows| <= pageSize ==> v == rows
  {
    var sorted := Sorted(Filtered(rows, st.q, SearchKeys(searchable, columns)), st.sort);
    if st.page == 1 && |sorted| <= pageSize then
      PageOneHoldsAll(sorted, pageSize);
      PageSlice(sorted, st.page, pageSize)
    else
      PageSlice(sorted, st.page, pageSize)
  }

  /** A table that fits on one page shows all of it on page 1. */
  lemma PageOneHoldsAll(sorted: seq<Row>, pageSize: nat)
    requires |sorted| <= pageSize
    ensures PageSlice(sorted, 1, pageSize) == sorted
  {
    assert JsSlice(sorted, 0, pageSize) == sorted;
  }

  /** Every visible row is an input row, and a matching one when searching;
      without searchable keys, matching means some column's text contains
      the query, ignoring case. There are never more than a page of rows. */
  lemma VisibleRows(rows: seq<Row>, columns: seq<string>, searchable: Option<seq<string>>, st: State, pageSize: nat)
    ensures |Visible(rows, columns, searchable, st, pageSize)| <= pageSize
    ensures forall r :: r in Visible(rows, columns, searchable, st, pageSize) ==>
      r in rows && (!Text.IsBlank(st.q) ==> RowMatches(r, SearchKeys(searchable, columns), Text.ToLower(st.q)))
    ensures searchable.None? && !Text.IsBlank(st.q) ==>
      forall r :: r in Visible(rows, columns, searchable, st, pageSize) ==>
        exists i :: 0 <= i < |columns| && Text.Includes(Text.ToLower(CellText(r, columns[i])), Text.ToLower(st.q))
  {
    var keys := SearchKeys(searchable, columns);
    forall r | r in Visible(rows, columns, searchable, st, pageSize)
      ensures r in rows && (!Text.IsBlank(st.q) ==> RowMatches(r, keys, Text.ToLower(st.q)))
    {
      VisibleRowOrigin(rows, keys, st, pageSize, r);
    }
  }

  /** A row on the current page of `keys`' search comes from the input and,
      when searching, matches on one of `keys`. */
  lemma VisibleRowOrigin(rows: seq<Row>, keys: seq<string>, st: State, pageSize: nat, r: Row)
    requires r in PageSlice(Sorted(Filtered(rows, st.q, keys), st.sort), st.page, pageSize)
    ensures r in rows && (!Text.IsBlank(st.q) ==> RowMatches(r, keys, Text.ToLower(st.q)))
  {
    var f := Filtered(rows, st.q, keys);
    var s := Sorted(f, st.sort);
    PageSliceElements(s, st.page, pageSize, r);
    SortedElements(f, st.sort, r);
    FilteredElements(rows, st.q, keys, r);
  }

  /** Slicing adds no row. */
  lemma PageSliceElements(s: seq<Row>, page: int, pageSize: nat, r: Row)
    requires r in PageSlice(s, page, pageSize)
    ensures r in s
  {
    var v := PageSlice(s, page, pageSize);
    var i :| 0 <= i < |v| && v[i] == r;
    JsSliceElements(s, (page - 1) * pageSize, page * pageSize, i);
  }

  /** Filtering adds no row, and keeps only matching ones. */
  lemma FilteredElements(rows: seq<Row>, q: string, keys: seq<string>, r: Row)
    requires r in Filtered(rows, q, keys)
    ensures r in rows && (!Text.IsBlank(q) ==> RowMatches(r, keys, Text.ToLower(q)))
  {
  }

  /** Sorting adds no row. */
  lemma SortedElements(f: seq<Row>, sort: Option<SortState>, r: Row)
    requires r in Sorted(f, sort)
    ensures r in f
  {
    assert r in multiset(Sorted(f, sort));
  }

  /** Every element of a slice comes from the sliced sequence. */
  lemma JsSliceElements<T>(s: seq<T>, start: int, end: int, i: int)
    requires 0 <= i < |JsSlice(s, start, end)|
    ensures JsSlice(s, start, end)[i] in s
  {
  }
}
