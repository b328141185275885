/** The pagination driver of the scraper (`fetch_wish_list`). The page
    fetch and its parse are given as the finite sequence of outcomes for
    the offsets 0, 15, 30, ...; the model assumes that every offset beyond
    the sequence yields an empty page without a next link, so every run
    ends. */
module WishList {
  import opened Records

  /** Douban lists fifteen books per wish-list page. */
  const PAGINATION_SIZE: nat := 15

  /** What fetching and parsing one page produced: its books and whether a
      "next page" link was present, or a fetch failure that propagates. */
  datatype PageFetch = Page(books: seq<Book>, hasNext: bool) | FetchFailed

  /** The outcome of the `k`-th fetch (0-based), with the modelling
      assumption that fetches past the given pages find an empty last page. */
  function PageAt(pages: seq<PageFetch>, k: nat): (p: PageFetch)
    ensures k >= |pages| ==> p == Page([], false)
  {
    if k < |pages| then pages[k] else Page([], false)
  }

  /** `max_pages and page >= max_pages`: a cap of None or 0 never stops the loop. */
  predicate CapReached(maxPages: Option<int>, page: nat): (r: bool)
    ensures maxPages == None || maxPages == Some(0) ==> !r
    ensures maxPages.Some? && maxPages.value < 0 ==> r
    ensures maxPages.Some? && maxPages.value > 0 ==> (r <==> page >= maxPages.value)
  {
    maxPages.Some? && maxPages.value != 0 && page >= maxPages.value
  }

  /** What a run of the driver produced: the books yielded in order, the
      offsets it requested, and whether it ended with a propagated failure. */
  datatype Harvest = Harvest(books: seq<Book>, offsets: seq<int>, failed: bool)

  /** The run of the driver from its `k`-th fetch on. */
  function HarvestFrom(pages: seq<PageFetch>, maxPages: Option<int>, k: nat): (h: Harvest)
    ensures |h.offsets| >= 1 && h.offsets[0] == PAGINATION_SIZE * k
    decreases |pages| - k
  {
    var p := PageAt(pages, k);
    if p.FetchFailed? then Harvest([], [PAGINATION_SIZE * k], true)
    else if p.books == [] then Harvest([], [PAGINATION_SIZE * k], false)
    else if CapReached(maxPages, k + 1) || !p.hasNext then Harvest(p.books, [PAGINATION_SIZE * k], false)
    else
      var rest := HarvestFrom(pages, maxPages, k + 1);
      Harvest(p.books + rest.books, [PAGINATION_SIZE * k] + rest.offsets, rest.failed)
  }

  /** `fetch_wish_list`, with the generator's output collected: the books it
      yielded, the offsets it requested, and whether a page fetch failed (the
      books yielded before the failure are those already handed out). */
  method FetchWishList(pages: seq<PageFetch>, maxPages: Option<int>)
    returns (books: seq<Book>, offsets: seq<int>, failed: bool)
    ensures Harvest(books, offsets, failed) == HarvestFrom(pages, maxPages, 0)
  {
    books, offsets, failed := [], [], false;
    var start := 0;
    var page := 0;
    while true
      invariant page <= |pages| && start == PAGINATION_SIZE * page && |offsets| == page
      invariant var rest := HarvestFrom(pages, maxPages, page);
        HarvestFrom(pages, maxPages, 0) == Harvest(books + rest.books, offsets + rest.offsets, rest.failed)
      decreases |pages| - page
    {
      var fetched := PageAt(pages, page);
      offsets := offsets + [start];
      page := page + 1;
      if fetched.FetchFailed? {
        failed := true;
        return;
      }
      if fetched.books == [] {
        break;
      }
      books := books + fetched.books;
      if maxPages.Some? && maxPages.value != 0 && page >= maxPages.value {
        break;
      }
      if !fetched.hasNext {
        break;
      }
      ContinueStep(pages, maxPages, page - 1, books[..|books| - |fetched.books|], offsets[..|offsets| - 1], books, offsets);
      start := start + PAGINATION_SIZE;
    }
  }

  /** When fetch `k` lets the loop go on, the run from `k` is that fetch
      followed by the run from `k + 1`; the state after appending the fetch
      accounts for the whole run. */
  lemma ContinueStep(pages: seq<PageFetch>, maxPages: Option<int>, k: nat, books0: seq<Book>, offsets0: seq<int>,
                     books: seq<Book>, offsets: seq<int>)
    requires k < |pages|
    requires var p := PageAt(pages, k);
      p.Page? && p.books != [] && !CapReached(maxPages, k + 1) && p.hasNext
    requires books == books0 + PageAt(pages, k).books && offsets == offsets0 + [PAGINATION_SIZE * k]
    requires var rest := HarvestFrom(pages, maxPages, k);
      HarvestFrom(pages, maxPages, 0) == Harvest(books0 + rest.books, offsets0 + rest.offsets, rest.failed)
    ensures var rest := HarvestFrom(pages, maxPages, k + 1);
      HarvestFrom(pages, maxPages, 0) == Harvest(books + rest.books, offsets + rest.offsets, rest.failed)
  {
    var here := HarvestFrom(pages, maxPages, k);
    var rest := HarvestFrom(pages, maxPages, k + 1);
    assert here.books == PageAt(pages, k).books + rest.books;
    assert here.offsets == [PAGINATION_SIZE * k] + rest.offsets;
    assert books0 + here.books == books + rest.books;
    assert offsets0 + here.offsets == offsets + rest.offsets;
  }

  /** The books a fetch contributes: a failed fetch contributes none. */
  function BooksOf(p: PageFetch): seq<Book>
  {
    if p.Page? then p.books else []
  }

  /** The books of fetches `lo` to `hi - 1`, in order. */
  function ConcatPages(pages: seq<PageFetch>, lo: nat, hi: nat): seq<Book>
    decreases hi - lo
  {
    if lo >= hi then [] else BooksOf(PageAt(pages, lo)) + ConcatPages(pages, lo + 1, hi)
  }

  /** After the `j`-th fetch the loop goes on: the page is non-empty, the cap
      is not reached and there is a next page. */
  predicate Continues(pages: seq<PageFetch>, maxPages: Option<int>, j: nat)
  {
    var p := PageAt(pages, j);
    p.Page? && p.books != [] && !CapReached(maxPages, j + 1) && p.hasNext
  }

  /** The shape of a run from fetch `k`: the `j`-th request asks for offset
      `15 * (k + j)`; every fetch but the last lets the loop go on and the last
      one stops it; the books yielded are those of the fetched pages in order;
      the run fails exactly when its last fetch failed. */
  lemma {:induction false} HarvestShape(pages: seq<PageFetch>, maxPages: Option<int>, k: nat)
    ensures var h := HarvestFrom(pages, maxPages, k);
      var n := |h.offsets|;
      (forall j :: 0 <= j < n ==> h.offsets[j] == PAGINATION_SIZE * (k + j)) &&
      (forall j :: k <= j < k + n - 1 ==> Continues(pages, maxPages, j)) &&
      !Continues(pages, maxPages, k + n - 1) &&
      h.books == ConcatPages(pages, k, k + n) &&
      (h.failed <==> PageAt(pages, k + n - 1).FetchFailed?)
    decreases |pages| - k
  {
    var p := PageAt(pages, k);
    var h := HarvestFrom(pages, maxPages, k);
    if Continues(pages, maxPages, k) {
      HarvestShape(pages, maxPages, k + 1);
      var rest := HarvestFrom(pages, maxPages, k + 1);
      assert h.offsets == [PAGINATION_SIZE * k] + rest.offsets;
      assert ConcatPages(pages, k, k + |h.offsets|) == p.books + ConcatPages(pages, k + 1, k + |h.offsets|);
    } else {
      assert |h.offsets| == 1;
      assert ConcatPages(pages, k + 1, k + 1) == [];
      assert h.books == BooksOf(p) + [];
    }
  }

  /** A run requests at least one page, asks for offsets 0, 15, 30, ... in
      turn, stops at the first fetch after which the loop may not go on, and
      yields the books of the fetched pages in order. */
  lemma RunShape(pages: seq<PageFetch>, maxPages: Option<int>)
    ensures var h := HarvestFrom(pages, maxPages, 0);
      var n := |h.offsets|;
      n >= 1 &&
      (forall j :: 0 <= j < n ==> h.offsets[j] == PAGINATION_SIZE * j) &&
      (forall j :: 0 <= j < n - 1 ==> Continues(pages, maxPages, j)) &&
      !Continues(pages, maxPages, n - 1) &&
      h.books == ConcatPages(pages, 0, n) &&
      (h.failed <==> PageAt(pages, n - 1).FetchFailed?)
  {
    HarvestShape(pages, maxPages, 0);
  }

  /** With a non-zero cap no more than that many pages are requested, whatever
      the pages say about a next page; a negative cap is truthy and stops the
      loop after the first page. */
  lemma PageCap(pages: seq<PageFetch>, maxPages: Option<int>)
    requires maxPages.Some? && maxPages.value != 0
    ensures |HarvestFrom(pages, maxPages, 0).offsets| <= if maxPages.value < 1 then 1 else maxPages.value
  {
    RunShape(pages, maxPages);
    var m := if maxPages.value < 1 then 1 else maxPages.value;
    assert !Continues(pages, maxPages, m - 1);
  }

  /** A cap of None or 0 never ends the run: a run stops only on a failure,
      an empty page, or a page without a next link. */
  lemma NoCap(pages: seq<PageFetch>, maxPages: Option<int>)
    requires maxPages == None || maxPages == Some(0)
    ensures var h := HarvestFrom(pages, maxPages, 0);
      var last := PageAt(pages, |h.offsets| - 1);
      last.FetchFailed? || last.books == [] || !last.hasNext
  {
    RunShape(pages, maxPages);
  }

  /** Natural exhaustion: when the first `n` pages are non-empty and link to
      a next page and page `n` is empty, with no cap, the driver fetches
      exactly `n + 1` pages (never page `n + 2`) and yields the books of the
      first `n` pages. */
  lemma Exhaustion(pages: seq<PageFetch>, n: nat)
    requires forall j :: 0 <= j < n ==> PageAt(pages, j).Page? && PageAt(pages, j).books != [] && PageAt(pages, j).hasNext
    requires PageAt(pages, n).Page? && PageAt(pages, n).books == []
    ensures var h := HarvestFrom(pages, None, 0);
      |h.offsets| == n + 1 && h.books == ConcatPages(pages, 0, n) && !h.failed
  {
    RunShape(pages, None);
    assert !Continues(pages, None, n);
    assert forall j :: 0 <= j < n ==> Continues(pages, None, j);
    assert ConcatPages(pages, 0, n + 1) == ConcatPages(pages, 0, n) by {
      ConcatPagesLast(pages, 0, n);
    }
  }

  lemma {:induction false} ConcatPagesLast(pages: seq<PageFetch>, lo: nat, hi: nat)
    requires lo <= hi
    ensures ConcatPages(pages, lo, hi + 1) == ConcatPages(pages, lo, hi) + BooksOf(PageAt(pages, hi))
    decreases hi - lo
  {
    if lo < hi {
      ConcatPagesLast(pages, lo + 1, hi);
    }
  }
}
