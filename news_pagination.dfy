/**
 * Client-side pagination of the news page (app/news/page.tsx): five articles
 * per page, the slice shown for the current page, the list of page links with
 * ellipsis markers, and the Previous/Next clamps.
 */
module NewsPagination {
  import opened Wrappers

  /** Articles shown per page. */
  const ItemsPerPage: nat := 5
  /** Above this many pages the link list is windowed. */
  const MaxPagesToShow: nat := 5

  /** `Math.ceil(n / itemsPerPage)`. */
  function TotalPages(n: nat): (t: nat)
    ensures t == 0 <==> n == 0
    ensures n > 0 ==> ItemsPerPage * (t - 1) < n <= ItemsPerPage * t
  {
    (n + ItemsPerPage - 1) / ItemsPerPage
  }

  /** Where `Array.prototype.slice` resolves a start or end argument for an array of length `n`. */
  function SliceIndex(i: int, n: nat): (r: nat)
    ensures r <= n
    ensures 0 <= i ==> r == if i < n then i else n
    ensures i < 0 ==> r == if n + i < 0 then 0 else n + i
  {
    if i < 0 then (if n + i < 0 then 0 else n + i) else if i < n then i else n
  }

  /** `xs.slice(start, end)`. */
  function JsSlice<T>(xs: seq<T>, start: int, end: int): (r: seq<T>)
    ensures SliceIndex(start, |xs|) < SliceIndex(end, |xs|) ==> r == xs[SliceIndex(start, |xs|)..SliceIndex(end, |xs|)]
    ensures SliceIndex(end, |xs|) <= SliceIndex(start, |xs|) ==> r == []
  {
    var a := SliceIndex(start, |xs|);
    var b := SliceIndex(end, |xs|);
    if a < b then xs[a..b] else []
  }

  /** `newsArticles.slice(startIndex, endIndex)` for the current page. */
  function CurrentNews<T>(items: seq<T>, currentPage: int): seq<T>
  {
    var startIndex := (currentPage - 1) * ItemsPerPage;
    JsSlice(items, startIndex, startIndex + ItemsPerPage)
  }

  /** One entry of the page-link list: a page number or the string `"ellipsis"`. */
  datatype PageEntry = Page(n: int) | Ellipsis

  /** Pages `1..t` in order. */
  function AllPages(t: nat): (r: seq<PageEntry>)
    ensures |r| == t && forall i | 0 <= i < t :: r[i] == Page(i + 1)
  {
    seq(t, i => Page(i + 1))
  }

  /** The page-link list, case by case. */
  function PageList(totalPages: nat, currentPage: int): seq<PageEntry>
  {
    var t := totalPages;
    var p := currentPage;
    if t <= MaxPagesToShow then AllPages(t)
    else if p <= 3 then [Page(1), Page(2), Page(3), Page(4), Ellipsis, Page(t)]
    else if p >= t - 2 then [Page(1), Ellipsis, Page(t - 3), Page(t - 2), Page(t - 1), Page(t)]
    else [Page(1), Ellipsis, Page(p - 1), Page(p), Page(p + 1), Ellipsis, Page(t)]
  }

  /** `getPageNumbers()`: builds the list entry by entry. */
  method GetPageNumbers(totalPages: nat, currentPage: int) returns (pages: seq<PageEntry>)
    ensures pages == PageList(totalPages, currentPage)
  {
    pages := [];
    if totalPages <= MaxPagesToShow {
      var i := 1;
      while i <= totalPages
        invariant 1 <= i <= totalPages + 1
        invariant pages == AllPages(i - 1)
      {
        pages := pages + [Page(i)];
        i := i + 1;
      }
    } else if currentPage <= 3 {
      var i := 1;
      while i <= 4
        invariant 1 <= i <= 5
        invariant pages == AllPages(i - 1)
      {
        pages := pages + [Page(i)];
        i := i + 1;
      }
      pages := pages + [Ellipsis];
      pages := pages + [Page(totalPages)];
    } else if currentPage >= totalPages - 2 {
      pages := pages + [Page(1)];
      pages := pages + [Ellipsis];
      var i := totalPages - 3;
      while i <= totalPages
        invariant totalPages - 3 <= i <= totalPages + 1
        invariant pages == [Page(1), Ellipsis] + seq(i - (totalPages - 3), k => Page(totalPages - 3 + k))
      {
        pages := pages + [Page(i)];
        i := i + 1;
      }
    } else {
      pages := pages + [Page(1)];
      pages := pages + [Ellipsis];
      var i := currentPage - 1;
      while i <= currentPage + 1
        invariant currentPage - 1 <= i <= currentPage + 2
        invariant pages == [Page(1), Ellipsis] + seq(i - (currentPage - 1), k => Page(currentPage - 1 + k))
      {
        pages := pages + [Page(i)];
        i := i + 1;
      }
      pages := pages + [Ellipsis];
      pages := pages + [Page(totalPages)];
    }
  }

  // ---------------------------------------------------------------------------
  // Which articles a page shows

  /**
   * A page within range shows the articles from `(p - 1) * 5` up to `p * 5`
   * or the end of the list, never more than five and never none; a page past
   * the last one shows nothing.
   */
  lemma CurrentNewsBounds<T>(items: seq<T>, p: int)
    requires p >= 1
    ensures 1 <= p <= TotalPages(|items|) ==>
              var lo := (p - 1) * ItemsPerPage;
              var hi := if p * ItemsPerPage < |items| then p * ItemsPerPage else |items|;
              && lo < hi
              && CurrentNews(items, p) == items[lo..hi]
              && 0 < |CurrentNews(items, p)| <= ItemsPerPage
    ensures p > TotalPages(|items|) ==> CurrentNews(items, p) == []
  {
  }

  /** The articles of pages `1..k`, in page order. */
  function PagesUpTo<T>(items: seq<T>, k: nat): seq<T>
  {
    if k == 0 then [] else PagesUpTo(items, k - 1) + CurrentNews(items, k)
  }

  lemma {:induction false} PagesUpToIsPrefix<T>(items: seq<T>, k: nat)
    ensures PagesUpTo(items, k) == items[..if k * ItemsPerPage < |items| then k * ItemsPerPage else |items|]
  {
    if k > 0 {
      PagesUpToIsPrefix(items, k - 1);
      var lo := (k - 1) * ItemsPerPage;
      if lo < |items| {
        var hi := if k * ItemsPerPage < |items| then k * ItemsPerPage else |items|;
        assert CurrentNews(items, k) == items[lo..hi];
        assert items[..lo] + items[lo..hi] == items[..hi];
      } else {
        assert CurrentNews(items, k) == [];
      }
    }
  }

  /** Pages `1..TotalPages` together show every article exactly once, in order. */
  lemma PagesPartitionItems<T>(items: seq<T>)
    ensures PagesUpTo(items, TotalPages(|items|)) == items
  {
    PagesUpToIsPrefix(items, TotalPages(|items|));
  }

  // ---------------------------------------------------------------------------
  // The page-link list

  /** Every page number shown lies in `1..t` and numbers strictly increase. */
  predicate IncreasingWithin(pages: seq<PageEntry>, t: int)
  {
    && (forall i | 0 <= i < |pages| && pages[i].Page? :: 1 <= pages[i].n <= t)
    && (forall i, j | 0 <= i < j < |pages| && pages[i].Page? && pages[j].Page? :: pages[i].n < pages[j].n)
  }

  /**
   * An ellipsis stands exactly for a run of hidden pages: two adjacent numbers
   * are consecutive pages, and an ellipsis sits between two numbers with at
   * least one page missing between them.
   */
  predicate EllipsisMarksGaps(pages: seq<PageEntry>)
  {
    && (forall i | 0 <= i < |pages| - 1 && pages[i].Page? && pages[i + 1].Page? :: pages[i + 1].n == pages[i].n + 1)
    && (forall i | 0 <= i < |pages| && pages[i].Ellipsis? ::
          0 < i < |pages| - 1 && pages[i - 1].Page? && pages[i + 1].Page? && pages[i + 1].n > pages[i - 1].n + 1)
  }

  lemma AllPagesShape(t: nat)
    ensures IncreasingWithin(AllPages(t), t) && EllipsisMarksGaps(AllPages(t))
  {
  }

  lemma HeadWindowShape(t: int)
    requires t > MaxPagesToShow
    ensures var pages := [Page(1), Page(2), Page(3), Page(4), Ellipsis, Page(t)];
            IncreasingWithin(pages, t) && EllipsisMarksGaps(pages)
  {
  }

  lemma TailWindowShape(t: int)
    requires t > MaxPagesToShow
    ensures var pages := [Page(1), Ellipsis, Page(t - 3), Page(t - 2), Page(t - 1), Page(t)];
            IncreasingWithin(pages, t) && EllipsisMarksGaps(pages)
  {
  }

  lemma MiddleWindowShape(t: int, p: int)
    requires t > MaxPagesToShow && 3 < p < t - 2
    ensures var pages := [Page(1), Ellipsis, Page(p - 1), Page(p), Page(p + 1), Ellipsis, Page(t)];
            IncreasingWithin(pages, t) && EllipsisMarksGaps(pages)
  {
  }

  /**
   * For a current page within range, the list has at most seven entries, shows
   * the first, the last and the current page, keeps the numbers increasing
   * within range, and uses an ellipsis only for hidden pages; so no page, and
   * in particular not the active one, is linked twice.
   */
  lemma PageListShape(t: nat, p: int)
    requires 1 <= p <= t
    ensures var pages := PageList(t, p);
            && |pages| <= 7
            && Page(1) in pages && Page(t) in pages && Page(p) in pages
            && IncreasingWithin(pages, t)
            && EllipsisMarksGaps(pages)
  {
    var pages := PageList(t, p);
    if t <= MaxPagesToShow {
      AllPagesShape(t);
      assert pages[0] == Page(1) && pages[t - 1] == Page(t) && pages[p - 1] == Page(p);
    } else if p <= 3 {
      HeadWindowShape(t);
      assert pages[p - 1] == Page(p);
    } else if p >= t - 2 {
      TailWindowShape(t);
      assert pages[p - t + 5] == Page(p);
    } else {
      MiddleWindowShape(t, p);
    }
  }

  /** No page number is listed twice, so exactly one link is marked active. */
  lemma PageListDistinct(t: nat, p: int)
    requires 1 <= p <= t
    ensures var pages := PageList(t, p);
            forall i, j | 0 <= i < j < |pages| && pages[i].Page? :: pages[i] != pages[j]
  {
    PageListShape(t, p);
  }

  // ---------------------------------------------------------------------------
  // Moving between pages

  /** A click on Previous, on Next, or on a numbered link. */
  datatype Nav = Previous | Next | GoTo(page: int)

  /** The page after a click: Previous and Next clamp to the first and the last page. */
  function Navigate(totalPages: nat, currentPage: int, nav: Nav): (r: int)
    ensures nav.Previous? && currentPage >= 1 ==> 1 <= r <= currentPage && (r == currentPage <==> currentPage == 1)
    ensures nav.Next? && currentPage <= totalPages ==> currentPage <= r <= totalPages && (r == currentPage <==> currentPage == totalPages)
    ensures nav.Previous? && currentPage > 1 ==> r == currentPage - 1
    ensures nav.Next? && currentPage < totalPages ==> r == currentPage + 1
    ensures nav.GoTo? ==> r == nav.page
  {
    match nav
    case Previous => if currentPage - 1 > 1 then currentPage - 1 else 1
    case Next => if currentPage + 1 < totalPages then currentPage + 1 else totalPages
    case GoTo(k) => k
  }

  /**
   * Whether a click can happen: the controls exist only with more than one
   * page, Previous is inert on the first page, Next on the last one, and a
   * numbered link exists only for the pages the list shows.
   */
  predicate Clickable(totalPages: nat, currentPage: int, nav: Nav)
  {
    && totalPages > 1
    && match nav
       case Previous => currentPage != 1
       case Next => currentPage != totalPages
       case GoTo(k) => Page(k) in PageList(totalPages, currentPage)
  }

  /** The current page after a sequence of clicks, starting from page 1; inert clicks change nothing. */
  function Browse(totalPages: nat, navs: seq<Nav>): int
  {
    if navs == [] then 1
    else
      var p := Browse(totalPages, navs[..|navs| - 1]);
      var nav := navs[|navs| - 1];
      if Clickable(totalPages, p, nav) then Navigate(totalPages, p, nav) else p
  }

  /** Whatever the clicks, the current page stays a real page (page 1 of an empty list). */
  lemma {:induction false} BrowseStaysInRange(totalPages: nat, navs: seq<Nav>)
    ensures totalPages == 0 ==> Browse(totalPages, navs) == 1
    ensures totalPages >= 1 ==> 1 <= Browse(totalPages, navs) <= totalPages
  {
    if navs != [] {
      var p := Browse(totalPages, navs[..|navs| - 1]);
      BrowseStaysInRange(totalPages, navs[..|navs| - 1]);
      var nav := navs[|navs| - 1];
      if Clickable(totalPages, p, nav) && nav.GoTo? {
        PageListShape(totalPages, p);
      }
    }
  }

  // ---------------------------------------------------------------------------
  // What the news section renders

  /** The pagination bar: Previous, the links (one marked active), Next. */
  datatype Controls = Controls(previousDisabled: bool, links: seq<PageEntry>, active: int, nextDisabled: bool)

  /** The "No articles found" message, or the current page's articles with an optional pagination bar. */
  datatype NewsView<T> = NoArticles | Listing(shown: seq<T>, controls: Option<Controls>)

  function View<T>(items: seq<T>, currentPage: int): (v: NewsView<T>)
    ensures v.NoArticles? <==> items == []
    ensures v.Listing? ==> v.shown == CurrentNews(items, currentPage)
    ensures v.Listing? ==> (v.controls.Some? <==> TotalPages(|items|) > 1)
    ensures v.Listing? && v.controls.Some? ==>
              && v.controls.value.links == PageList(TotalPages(|items|), currentPage)
              && v.controls.value.active == currentPage
              && (v.controls.value.previousDisabled <==> currentPage == 1)
              && (v.controls.value.nextDisabled <==> currentPage == TotalPages(|items|))
  {
    var totalPages := TotalPages(|items|);
    if |items| > 0 then
      Listing(CurrentNews(items, currentPage),
              if totalPages > 1
              then Some(Controls(currentPage == 1, PageList(totalPages, currentPage), currentPage, currentPage == totalPages))
              else None)
    else NoArticles
  }

  /** However the reader clicks, a non-empty list always shows between one and five articles. */
  lemma BrowsedViewShowsArticles<T>(items: seq<T>, navs: seq<Nav>)
    requires items != []
    ensures var v := View(items, Browse(TotalPages(|items|), navs));
            v.Listing? && 0 < |v.shown| <= ItemsPerPage
  {
    var p := Browse(TotalPages(|items|), navs);
    BrowseStaysInRange(TotalPages(|items|), navs);
    CurrentNewsBounds(items, p);
  }
}
