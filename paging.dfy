/**
 * Page arithmetic of the species table: `totalPages`, the page window
 * `indexOfFirstItem`..`indexOfLastItem`, and `Array.prototype.slice`.
 */
module Paging {

  /** `itemsPerPage`. */
  const PageSize: nat := 10

  /** `Math.ceil(count / itemsPerPage)`: the fewest pages that hold `count` records. */
  function TotalPages(count: nat): (t: nat)
    ensures count <= t * PageSize
    ensures t > 0 ==> (t - 1) * PageSize < count
  {
    (count + PageSize - 1) / PageSize
  }

  /** `indexOfFirstItem = currentPage * itemsPerPage - itemsPerPage`. */
  function IndexOfFirstItem(page: int): int {
    page * PageSize - PageSize
  }

  /** `indexOfLastItem = currentPage * itemsPerPage`. */
  function IndexOfLastItem(page: int): int {
    page * PageSize
  }

  /** How `slice` reads an argument: a negative index counts from the end; the result is clamped to the length. */
  function SliceIndex(i: int, len: nat): (r: nat)
    ensures r <= len
    ensures 0 <= i <= len ==> r == i
    ensures len < i ==> r == len
    ensures i < 0 ==> r == (if len + i < 0 then 0 else len + i)
  {
    if i < 0 then (if len + i < 0 then 0 else len + i)
    else if i > len then len
    else i
  }

  /**
   * `s.slice(start, end)`: the elements from the clamped `start` up to the
   * clamped `end`, none when `end` does not come after `start`.
   */
  function Slice<T>(s: seq<T>, start: int, end: int): (r: seq<T>)
    ensures var from, to := SliceIndex(start, |s|), SliceIndex(end, |s|);
      && |r| == (if from < to then to - from else 0)
      && forall i :: 0 <= i < |r| ==> r[i] == s[from + i]
  {
    var from := SliceIndex(start, |s|);
    var to := SliceIndex(end, |s|);
    if from < to then s[from..to] else []
  }

  /** `currentItems = filteredLabels.slice(indexOfFirstItem, indexOfLastItem)`. */
  function CurrentItems<T>(s: seq<T>, page: int): (r: seq<T>)
    ensures |r| <= PageSize
  {
    Slice(s, IndexOfFirstItem(page), IndexOfLastItem(page))
  }

  /** The row number the table prints for the item at `index` of the current page. */
  function RowNumber(page: int, index: nat): int {
    IndexOfFirstItem(page) + index + 1
  }

  /** From page 1 on, the current items are the filtered records from `indexOfFirstItem` on. */
  lemma CurrentItemsWindow<T>(s: seq<T>, page: int)
    requires 1 <= page
    ensures forall i :: 0 <= i < |CurrentItems(s, page)| ==>
      IndexOfFirstItem(page) + i < |s| && CurrentItems(s, page)[i] == s[IndexOfFirstItem(page) + i]
  {
    var r := CurrentItems(s, page);
    var first := IndexOfFirstItem(page);
    var from := SliceIndex(first, |s|);
    var to := SliceIndex(IndexOfLastItem(page), |s|);
    assert first >= 0;
    if from < to {
      assert from == first;
      assert r == s[from..to];
    } else {
      assert r == [];
    }
  }

  /**
   * The row number printed beside an item of a page is that item's 1-based
   * position in the whole filtered list.
   */
  lemma RowNumberIsPosition<T>(s: seq<T>, page: int, index: nat)
    requires 1 <= page
    requires index < |CurrentItems(s, page)|
    ensures 1 <= RowNumber(page, index) <= |s|
    ensures s[RowNumber(page, index) - 1] == CurrentItems(s, page)[index]
  {
  }

  /**
   * Which pages hold what: every page in 1..totalPages is non-empty, all but
   * the last are full, the last holds the remainder, and pages past the end
   * are empty.
   */
  lemma PageSizes<T>(s: seq<T>, page: int)
    requires 1 <= page
    ensures page <= TotalPages(|s|) ==> CurrentItems(s, page) != []
    ensures page < TotalPages(|s|) ==> |CurrentItems(s, page)| == PageSize
    ensures page == TotalPages(|s|) ==> |CurrentItems(s, page)| == |s| - (page - 1) * PageSize
    ensures page > TotalPages(|s|) ==> CurrentItems(s, page) == []
  {
  }

  /** Pages 1..n of `s`, one after the other. */
  function PagesUpTo<T>(s: seq<T>, n: nat): seq<T> {
    if n == 0 then [] else PagesUpTo(s, n - 1) + CurrentItems(s, n)
  }

  function Min(a: int, b: int): int {
    if a <= b then a else b
  }

  lemma {:induction false} PagesUpToIsPrefix<T>(s: seq<T>, n: nat)
    ensures PagesUpTo(s, n) == s[..Min(n * PageSize, |s|)]
  {
    if n > 0 {
      PagesUpToIsPrefix(s, n - 1);
      var lo := Min((n - 1) * PageSize, |s|);
      var hi := Min(n * PageSize, |s|);
      assert CurrentItems(s, n) == s[lo..hi];
      assert s[..lo] + s[lo..hi] == s[..hi];
    }
  }

  /** Reading pages 1..totalPages in turn shows every record exactly once, in order. */
  lemma PagesCoverAll<T>(s: seq<T>)
    ensures PagesUpTo(s, TotalPages(|s|)) == s
  {
    PagesUpToIsPrefix(s, TotalPages(|s|));
    assert s[..|s|] == s;
  }
}
