/**
 * `get_pagination`: six items per page, the page count `ceil(n / 6)`, and the
 * Python slice `items[(page - 1) * 6 : page * 6]` with its handling of
 * negative and out-of-range bounds.
 */
module Pagination {
  import opened Wrappers

  const PerPage: nat := 6

  /** The metadata returned beside the page: `{'page': page, 'pages': total_pages}`. */
  datatype PageInfo = PageInfo(page: int, pages: nat)

  function Min(a: int, b: int): int {
    if a <= b then a else b
  }

  /** Python's normalisation of a slice bound against a sequence of length n. */
  function SliceBound(i: int, n: nat): (b: nat)
    ensures b <= n
  {
    if i < 0 then (if i + n < 0 then 0 else i + n)
    else if i > n then n
    else i
  }

  /** Python's `s[start:stop]`. */
  function PySlice<T>(s: seq<T>, start: int, stop: int): seq<T> {
    var lo := SliceBound(start, |s|);
    var hi := SliceBound(stop, |s|);
    if lo < hi then s[lo..hi] else []
  }

  /** `math.ceil(n / per_page)`: the least page count whose pages hold n items. */
  function TotalPages(n: nat): (pages: nat)
    ensures pages * PerPage >= n
    ensures pages == 0 || (pages - 1) * PerPage < n
  {
    (n + PerPage - 1) / PerPage
  }

  /** `request.args.get('page', 1, type=int)`: the requested page, 1 when absent or not an integer. */
  function RequestedPage(arg: Option<int>): (page: int)
    ensures arg.None? ==> page == 1
    ensures arg.Some? ==> page == arg.value
  {
    match arg
    case Some(p) => p
    case None => 1
  }

  /** `get_pagination(items)` for the requested page. */
  function Paginate<T>(items: seq<T>, page: int): (r: (seq<T>, PageInfo))
    ensures r.1.page == page && r.1.pages == TotalPages(|items|)
  {
    (PySlice(items, (page - 1) * PerPage, page * PerPage), PageInfo(page, TotalPages(|items|)))
  }

  /** There are no pages exactly when there are no items. */
  lemma NoPagesIffEmpty(n: nat)
    ensures TotalPages(n) == 0 <==> n == 0
  {
  }

  /** For a page from 1 on, the subset is the window `[(page-1)*6, min(page*6, n))`, clipped to the list. */
  lemma PageWindow<T>(items: seq<T>, page: int)
    requires page >= 1
    ensures var lo := Min((page - 1) * PerPage, |items|);
            var hi := Min(page * PerPage, |items|);
            lo <= hi && Paginate(items, page).0 == items[lo..hi]
  {
  }

  /** A page holds at most six items. */
  lemma PageSizeBound<T>(items: seq<T>, page: int)
    ensures |Paginate(items, page).0| <= PerPage
  {
  }

  /** For a page from 1 on, the subset is empty exactly when the page is past the last one (always, on an empty list). */
  lemma PageEmptyIffPastLast<T>(items: seq<T>, page: int)
    requires page >= 1
    ensures Paginate(items, page).0 == [] <==> page > TotalPages(|items|)
  {
    PageWindow(items, page);
  }

  /** A list of at most six items is all on page 1. */
  lemma ShortListIsFirstPage<T>(items: seq<T>)
    requires |items| <= PerPage
    ensures Paginate(items, 1).0 == items
  {
    PageWindow(items, 1);
  }

  /**
   * Without a `page` argument the home page shows the first six items (all
   * of them when there are fewer) and reports page 1.
   */
  lemma MissingPageArgIsFirstPage<T>(items: seq<T>)
    ensures Paginate(items, RequestedPage(None)).0 == items[..Min(|items|, PerPage)]
    ensures Paginate(items, RequestedPage(None)).1.page == 1
  {
    PageWindow(items, 1);
  }

  /** Page 0 is always empty. */
  lemma PageZeroEmpty<T>(items: seq<T>)
    ensures Paginate(items, 0).0 == []
  {
  }

  /**
   * A negative page is not always empty: Python counts negative slice bounds
   * from the end, so on twelve items page -1 is the first six.
   */
  lemma NegativePageWrapsAround<T>(items: seq<T>)
    requires |items| == 12
    ensures Paginate(items, -1).0 == items[..6]
  {
  }

  /** Pages 1 to k, one after another. */
  function PagesUpTo<T>(items: seq<T>, k: nat): seq<T> {
    if k == 0 then [] else PagesUpTo(items, k - 1) + Paginate(items, k).0
  }

  /** Pages 1 to k together are the first `min(6k, n)` items. */
  lemma {:induction false} PagesUpToIsPrefix<T>(items: seq<T>, k: nat)
    ensures PagesUpTo(items, k) == items[..Min(k * PerPage, |items|)]
  {
    if k > 0 {
      PagesUpToIsPrefix(items, k - 1);
      PageWindow(items, k);
      var a := Min((k - 1) * PerPage, |items|);
      var b := Min(k * PerPage, |items|);
      assert items[..a] + items[a..b] == items[..b];
    }
  }

  /** Concatenating pages 1 to `TotalPages(n)` gives back the whole list. */
  lemma PagesCoverAll<T>(items: seq<T>)
    ensures PagesUpTo(items, TotalPages(|items|)) == items
  {
    PagesUpToIsPrefix(items, TotalPages(|items|));
  }

  /** Item i is on page `i / 6 + 1`, at position `i % 6`. */
  lemma ItemOnItsPage<T>(items: seq<T>, i: nat)
    requires i < |items|
    ensures var p := Paginate(items, i / PerPage + 1).0;
            i % PerPage < |p| && p[i % PerPage] == items[i]
  {
    PageWindow(items, i / PerPage + 1);
  }
}
