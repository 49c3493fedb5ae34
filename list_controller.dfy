/**
 * The state of the species table and its three event handlers: clicking a
 * column header, typing in the search box, and choosing a page. What the
 * table shows is derived from that state by sorting, filtering and slicing.
 */
module SpeciesList {
  import opened Wrappers
  import opened Species
  import Sorting
  import Search
  import Paging

  /** The marker drawn beside a column header. */
  datatype Arrow = Up | Down

  /**
   * The page shown from an ordered list, when the page is 1 or an existing
   * page: consecutive records from `indexOfFirstItem`, in order, and
   * non-empty when the list is.
   */
  lemma ShownPage(key: Option<Field>, dir: Sorting.Direction, filtered: seq<Label>, page: nat)
    requires Sorting.Ordered(key, dir, filtered)
    requires 1 <= page && (page == 1 || page <= Paging.TotalPages(|filtered|))
    ensures var r := Paging.CurrentItems(filtered, page);
      && (filtered != [] ==> r != [])
      && (forall i :: 0 <= i < |r| ==>
            0 <= Paging.IndexOfFirstItem(page) + i < |filtered|
            && r[i] == filtered[Paging.IndexOfFirstItem(page) + i])
      && Sorting.Ordered(key, dir, r)
  {
    var r := Paging.CurrentItems(filtered, page);
    Paging.PageSizes(filtered, page);
    Paging.CurrentItemsWindow(filtered, page);
    Sorting.OrderedWindow(key, dir, filtered, r, Paging.IndexOfFirstItem(page));
  }

  class ListController {
    var labels: seq<Label>
    var loading: bool
    var searchTerm: string
    var currentPage: nat
    var sortKey: Option<Field>
    var dir: Sorting.Direction

    /**
     * The page is at least 1 and, once there are results, never past the last
     * page; nothing has been fetched while the list is still loading.
     */
    ghost predicate Valid()
      reads this
    {
      && 1 <= currentPage
      && (currentPage == 1 || currentPage <= TotalPages())
      && (loading ==> labels == [])
    }

    /** The component as first mounted: loading, no search, no sort key, page 1. */
    constructor ()
      ensures Valid()
      ensures loading && labels == [] && searchTerm == ""
      ensures currentPage == 1 && sortKey == None && dir == Sorting.Asc
    {
      labels := [];
      loading := true;
      searchTerm := "";
      currentPage := 1;
      sortKey := None;
      dir := Sorting.Asc;
    }

    /**
     * The end of the fetch effect: the fetched array on success, an empty
     * list on failure; loading ends either way.
     */
    method FinishLoad(fetched: Option<seq<Label>>)
      requires Valid() && loading
      modifies this
      ensures Valid() && !loading
      ensures labels == (if fetched.Some? then fetched.value else [])
      ensures searchTerm == old(searchTerm) && currentPage == old(currentPage)
      ensures sortKey == old(sortKey) && dir == old(dir)
    {
      if fetched.Some? {
        labels := fetched.value;
      }
      loading := false;
    }

    /** `sortedLabels`: the fetched records, reordered by the current key and direction. */
    function SortedLabels(): (r: seq<Label>)
      reads this
      ensures multiset(r) == multiset(labels)
      ensures Sorting.Ordered(sortKey, dir, r)
      ensures sortKey == None ==> r == labels
    {
      Sorting.SortedOrdered(labels, sortKey, dir);
      if sortKey == None then Sorting.UnsortedKeepsOrder(labels, dir); Sorting.SortedLabels(labels, sortKey, dir)
      else Sorting.SortedLabels(labels, sortKey, dir)
    }

    /** `filteredLabels`: the sorted records that match the search term, still in sorted order. */
    function FilteredLabels(): (r: seq<Label>)
      reads this
      ensures forall l :: l in r <==> l in labels && Search.Matches(searchTerm, l)
      ensures Sorting.Ordered(sortKey, dir, r)
      ensures searchTerm == "" ==> r == SortedLabels()
    {
      var sorted := SortedLabels();
      assert forall l :: l in sorted <==> l in labels by {
        forall l ensures l in sorted <==> l in labels {
          assert l in sorted <==> l in multiset(sorted);
        }
      }
      Search.FilteredKeepsOrder(sortKey, dir, sorted, searchTerm);
      Search.EmptyTermKeepsAll(sorted);
      Search.FilteredLabels(sorted, searchTerm)
    }

    /** `totalPages`: the fewest pages of ten that hold every filtered record. */
    function TotalPages(): (t: nat)
      reads this
      ensures |FilteredLabels()| <= t * Paging.PageSize
      ensures t > 0 ==> (t - 1) * Paging.PageSize < |FilteredLabels()|
    {
      Paging.TotalPages(|FilteredLabels()|)
    }

    /**
     * `indexOfFirstItem`: the number of records on the pages before the
     * current one, which is a valid index whenever anything matches.
     */
    function IndexOfFirstItem(): (first: int)
      reads this
      ensures first == (currentPage - 1) * Paging.PageSize
      ensures Valid() && FilteredLabels() != [] ==> 0 <= first < |FilteredLabels()|
    {
      Paging.IndexOfFirstItem(currentPage)
    }

    /**
     * `currentItems`: at most one page of consecutive filtered records, in
     * sort order, starting at `indexOfFirstItem`; never empty while there
     * are results.
     */
    function CurrentItems(): (r: seq<Label>)
      reads this
      requires Valid()
      ensures |r| <= Paging.PageSize
      ensures FilteredLabels() != [] ==> r != []
      ensures forall i :: 0 <= i < |r| ==>
        0 <= IndexOfFirstItem() + i < |FilteredLabels()| && r[i] == FilteredLabels()[IndexOfFirstItem() + i]
      ensures Sorting.Ordered(sortKey, dir, r)
    {
      ShownPage(sortKey, dir, FilteredLabels(), currentPage);
      assert IndexOfFirstItem() == Paging.IndexOfFirstItem(currentPage);
      Paging.CurrentItems(FilteredLabels(), currentPage)
    }

    /** The marker drawn beside the header of `column`. */
    function ArrowFor(column: Field): Arrow
      reads this
    {
      if sortKey == Some(column) then (if dir == Sorting.Asc then Up else Down) else Up
    }

    /**
     * `handleSort(key)`: descending only when `key` is already the ascending
     * sort key, ascending otherwise; always back to page 1.
     */
    method HandleSort(key: Field)
      requires Valid()
      modifies this
      ensures Valid()
      ensures sortKey == Some(key)
      ensures dir == (if old(sortKey) == Some(key) && old(dir) == Sorting.Asc then Sorting.Desc else Sorting.Asc)
      ensures ArrowFor(key) == (if old(ArrowFor(key)) == Up && old(sortKey) == Some(key) then Down else Up)
      ensures currentPage == 1
      ensures labels == old(labels) && searchTerm == old(searchTerm) && loading == old(loading)
    {
      var direction := Sorting.Asc;
      if sortKey == Some(key) && dir == Sorting.Asc {
        direction := Sorting.Desc;
      }
      sortKey := Some(key);
      dir := direction;
      currentPage := 1;
    }

    /** The search box's `onChange`: the new text becomes the term and the page resets to 1. */
    method SetSearch(term: string)
      requires Valid()
      modifies this
      ensures Valid()
      ensures searchTerm == term && currentPage == 1
      ensures labels == old(labels) && sortKey == old(sortKey) && dir == old(dir) && loading == old(loading)
    {
      searchTerm := term;
      currentPage := 1;
    }

    /** `paginate(pageNumber)`: moves only to an existing page; anything else is a no-op. */
    method Paginate(pageNumber: int)
      requires Valid()
      modifies this
      ensures Valid()
      ensures 1 <= pageNumber <= old(TotalPages()) ==> currentPage == pageNumber
      ensures !(1 <= pageNumber <= old(TotalPages())) ==> currentPage == old(currentPage)
      ensures old(FilteredLabels()) == [] ==> currentPage == old(currentPage)
      ensures labels == old(labels) && searchTerm == old(searchTerm)
      ensures sortKey == old(sortKey) && dir == old(dir) && loading == old(loading)
    {
      if pageNumber >= 1 && pageNumber <= TotalPages() {
        currentPage := pageNumber;
      }
    }
  }
}
