/**
 * The state logic of the generic table widget: the sort header's click rule,
 * the displayed row order, row selection, cell text and the pager.
 */
module DataTable {
  import opened Common

  datatype Direction = Asc | Desc

  function Flip(d: Direction): Direction {
    if d == Asc then Desc else Asc
  }

  /**
   * The header click rule: clicking the column already sorted on flips the
   * direction; clicking another column sorts on it, ascending.
   */
  function NextSort(sortKey: Option<string>, direction: Direction, key: string): (r: (Option<string>, Direction))
    ensures r.0 == Some(key)
    ensures sortKey == Some(key) ==> r.1 != direction
    ensures sortKey != Some(key) ==> r.1 == Asc
  {
    if sortKey == Some(key) then (sortKey, Flip(direction)) else (Some(key), Asc)
  }

  /** Clicking the sorted column twice restores its direction. */
  lemma ClickTwiceRestores(sortKey: Option<string>, direction: Direction, key: string)
    requires sortKey == Some(key)
    ensures var (k1, d1) := NextSort(sortKey, direction, key); NextSort(k1, d1, key) == (sortKey, direction)
  {
  }

  /** A new column clicked twice ends up sorted descending. */
  lemma NewColumnTwiceIsDescending(sortKey: Option<string>, direction: Direction, key: string)
    requires sortKey != Some(key)
    ensures var (k1, d1) := NextSort(sortKey, direction, key); NextSort(k1, d1, key) == (Some(key), Desc)
  {
  }

  /** The component's sort state: no column and ascending when first shown. */
  class SortState {
    var sortKey: Option<string>
    var direction: Direction

    constructor ()
      ensures sortKey == None && direction == Asc
    {
      sortKey := None;
      direction := Asc;
    }

    method HandleSort(key: string)
      modifies this
      ensures (sortKey, direction) == NextSort(old(sortKey), old(direction), key)
      ensures sortKey == Some(key)
      ensures old(sortKey) == Some(key) ==> direction == Flip(old(direction))
      ensures old(sortKey) != Some(key) ==> direction == Asc
    {
      if sortKey == Some(key) {
        direction := Flip(direction);
      } else {
        sortKey := Some(key);
        direction := Asc;
      }
    }
  }

  /** The sort key is truthy: set and not the empty string. */
  predicate Sorting(sortKey: Option<string>) {
    sortKey.Some? && sortKey.value != ""
  }

  /**
   * The rows as displayed. `cell(row, key)` is the value of column `key` in
   * `row`, compared numerically. Without a (truthy) sort key the rows are shown
   * as given; otherwise a stable sort on that column in the chosen direction.
   */
  function SortedData<R>(data: seq<R>, sortKey: Option<string>, direction: Direction, cell: (R, string) -> int): (r: seq<R>)
    ensures !Sorting(sortKey) ==> r == data
    ensures multiset(r) == multiset(data)
    ensures Sorting(sortKey) && direction == Asc ==>
      forall i, j :: 0 <= i < j < |r| ==> cell(r[i], sortKey.value) <= cell(r[j], sortKey.value)
    ensures Sorting(sortKey) && direction == Desc ==>
      forall i, j :: 0 <= i < j < |r| ==> cell(r[i], sortKey.value) >= cell(r[j], sortKey.value)
  {
    if !Sorting(sortKey) then data
    else
      var k := sortKey.value;
      if direction == Asc then SortByKey(data, row => cell(row, k))
      else
        var s := SortByKey(data, row => -cell(row, k));
        assert forall i, j :: 0 <= i < j < |s| ==> -cell(s[i], k) <= -cell(s[j], k);
        s
  }

  // ---------------------------------------------------------------------
  // Row selection
  // ---------------------------------------------------------------------

  /**
   * The row checkbox handler: nothing happens without a selection callback,
   * otherwise the callback receives the toggled selection.
   */
  function HandleSelectRow<I(==,!new)>(hasCallback: bool, selected: seq<I>, id: I): (r: Option<seq<I>>)
    ensures r.None? <==> !hasCallback
    ensures r.Some? ==> r.value == Toggle(selected, id)
  {
    if !hasCallback then None else Some(Toggle(selected, id))
  }

  /**
   * The header checkbox handler: clears when as many ids are selected as
   * there are rows, otherwise selects every row's id.
   */
  function SelectAllRows<I>(selected: seq<I>, rowIds: seq<I>): (r: seq<I>)
    ensures |selected| == |rowIds| ==> r == []
    ensures |selected| != |rowIds| ==> r == rowIds
  {
    if |selected| == |rowIds| then [] else rowIds
  }

  function HandleSelectAll<I>(hasCallback: bool, selected: seq<I>, rowIds: seq<I>): (r: Option<seq<I>>)
    ensures r.None? <==> !hasCallback
    ensures r.Some? ==> r.value == SelectAllRows(selected, rowIds)
  {
    if !hasCallback then None else Some(SelectAllRows(selected, rowIds))
  }

  /** The header checkbox is checked. */
  predicate HeaderChecked<I>(selected: seq<I>, rowCount: nat) {
    |selected| == rowCount && rowCount > 0
  }

  /** The header checkbox alternates: checked clears, unchecked selects all rows. */
  lemma SelectAllAlternates<I>(selected: seq<I>, rowIds: seq<I>)
    ensures HeaderChecked(selected, |rowIds|) ==> !HeaderChecked(SelectAllRows(selected, rowIds), |rowIds|)
    ensures |selected| != |rowIds| ==> (HeaderChecked(SelectAllRows(selected, rowIds), |rowIds|) <==> |rowIds| > 0)
  {
  }

  // ---------------------------------------------------------------------
  // Cells
  // ---------------------------------------------------------------------

  /** A field's raw value; `Value` carries its `String(...)` form. */
  datatype CellValue = Null | Undefined | Value(text: string)

  /** What a cell shows: the column's own renderer, or a text. */
  datatype Display = Rendered | Text(text: string)

  function CellDisplay(hasRender: bool, v: CellValue): (d: Display)
    ensures hasRender <==> d == Rendered
    ensures !hasRender && (v.Null? || v.Undefined?) ==> d == Text("-")
    ensures !hasRender && v.Value? ==> d == Text(v.text)
  {
    if hasRender then Rendered
    else match v
      case Null => Text("-")
      case Undefined => Text("-")
      case Value(t) => Text(t)
  }

  // ---------------------------------------------------------------------
  // Pager
  // ---------------------------------------------------------------------

  datatype Pagination = Pagination(currentPage: int, totalPages: int, totalItems: int, itemsPerPage: int)

  function Min(a: int, b: int): int {
    if a <= b then a else b
  }

  /** The page number shown in slot `i` of the window. */
  function PageAt(current: int, total: int, i: int): int {
    if total <= 5 then i + 1
    else if current <= 3 then i + 1
    else if current >= total - 2 then total - 4 + i
    else current - 2 + i
  }

  /**
   * The numbered buttons: `min(5, totalPages)` slots (none for a negative
   * count). On a valid page they are consecutive pages inside the range and
   * include the current one.
   */
  function PageWindow(current: int, total: int): (r: seq<int>)
    ensures |r| == if total < 0 then 0 else Min(5, total)
    ensures 1 <= current <= total ==>
      && (forall i :: 0 <= i < |r| ==> r[i] == r[0] + i && 1 <= r[i] <= total)
      && current in r
  {
    var n := if total < 0 then 0 else Min(5, total);
    var r := seq(n, i => PageAt(current, total, i));
    if 1 <= current <= total then
      var k := current - r[0];
      assert 0 <= k < n && r[k] == current;
      r
    else r
  }

  /** First item number in "Showing X to Y". */
  function ShowingFrom(p: Pagination): int {
    (p.currentPage - 1) * p.itemsPerPage + 1
  }

  /** Last item number in "Showing X to Y". */
  function ShowingTo(p: Pagination): int {
    Min(p.currentPage * p.itemsPerPage, p.totalItems)
  }

  /** The pager as rendered, or `None` when it is hidden. */
  datatype PagerView = PagerView(from: int, to: int, of: int, pages: seq<int>, prevDisabled: bool, nextDisabled: bool)

  function Pager(p: Pagination): (r: Option<PagerView>)
    ensures r.Some? <==> p.totalPages > 1
    ensures r.Some? ==> (r.value.prevDisabled <==> p.currentPage == 1)
    ensures r.Some? ==> (r.value.nextDisabled <==> p.currentPage == p.totalPages)
    ensures r.Some? ==> r.value.from == ShowingFrom(p) && r.value.to == ShowingTo(p) && r.value.of == p.totalItems
    ensures r.Some? ==> r.value.pages == PageWindow(p.currentPage, p.totalPages)
  {
    if p.totalPages > 1 then
      Some(PagerView(ShowingFrom(p), ShowingTo(p), p.totalItems,
                     PageWindow(p.currentPage, p.totalPages),
                     p.currentPage == 1, p.currentPage == p.totalPages))
    else None
  }

  /** The page count that goes with an item count and page size. */
  predicate Consistent(p: Pagination) {
    p.itemsPerPage >= 1 && p.totalItems >= 0 &&
    p.totalPages == (p.totalItems + p.itemsPerPage - 1) / p.itemsPerPage
  }

  /**
   * With a consistent page count and a valid current page, the shown range is
   * non-empty, inside the items, at most a page long and exactly a page long
   * before the last page.
   */
  lemma ShowingRange(p: Pagination)
    requires Consistent(p) && 1 <= p.currentPage <= p.totalPages
    ensures 1 <= ShowingFrom(p) <= ShowingTo(p) <= p.totalItems
    ensures ShowingTo(p) - ShowingFrom(p) + 1 <= p.itemsPerPage
    ensures p.currentPage < p.totalPages ==> ShowingTo(p) - ShowingFrom(p) + 1 == p.itemsPerPage
  {
    var c, n, t := p.currentPage, p.itemsPerPage, p.totalItems;
    var q := (t + n - 1) / n;
    // q pages hold q * n >= t items, and q - 1 pages fewer than t.
    assert (t + n - 1) == q * n + (t + n - 1) % n;
    assert 0 <= (t + n - 1) % n < n;
    assert (q - 1) * n == q * n - n;
    assert (q - 1) * n < t;
    assert 0 <= (c - 1) * n by {
      MulMonotone(0, c - 1, n);
    }
    assert (c - 1) * n <= (q - 1) * n by {
      MulMonotone(c - 1, q - 1, n);
    }
    assert c < q ==> c * n <= (q - 1) * n by {
      if c < q { MulMonotone(c, q - 1, n); }
    }
    assert c * n == (c - 1) * n + n;
  }

  lemma MulMonotone(a: int, b: int, n: int)
    requires a <= b && n >= 0
    ensures a * n <= b * n
  {
    assert (b - a) * n >= 0;
  }
}
