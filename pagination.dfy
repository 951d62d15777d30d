/**
 * The arithmetic of the movie list: how many pages a catalogue makes,
 * which slice of the id-descending order a page shows, and its links.
 */
module Pagination {
  import opened Wrappers
  import opened Schemas

  /** The largest page size a list request may ask for. */
  const MaxPerPage := 20

  /** The query bounds of a list request: `page >= 1` and `1 <= per_page <= 20`. */
  predicate ValidQuery(page: int, perPage: int) {
    page >= 1 && 1 <= perPage <= MaxPerPage
  }

  /** Multiplication by a positive factor keeps the order. */
  lemma MulMonotone(a: int, b: int, p: int)
    requires p >= 1 && a <= b
    ensures a * p <= b * p
  {
    assert b * p - a * p == (b - a) * p;
  }

  /**
   * The number of pages, written as the ceiling division
   * `(total_items + per_page - 1) // per_page` on non-negative integers.
   */
  function TotalPages(totalItems: nat, perPage: nat): (pages: nat)
    requires perPage >= 1
    ensures pages >= 1 <==> totalItems > 0
  {
    var n := totalItems + perPage - 1;
    assert n >= perPage <==> totalItems > 0;
    n / perPage
  }

  /**
   * TotalPages is the ceiling of `totalItems / perPage`: enough pages to hold
   * every item, and one page fewer would not be.
   */
  lemma TotalPagesBounds(totalItems: nat, perPage: nat)
    requires perPage >= 1
    ensures totalItems <= TotalPages(totalItems, perPage) * perPage
    ensures TotalPages(totalItems, perPage) >= 1 ==> (TotalPages(totalItems, perPage) - 1) * perPage < totalItems
  {
    var n := totalItems + perPage - 1;
    var q := n / perPage;
    var r := n % perPage;
    assert n == q * perPage + r && 0 <= r < perPage;
    assert (q - 1) * perPage == q * perPage - perPage;
  }

  /** Any whole number of pages that holds every item, and would not with one page fewer, is TotalPages. */
  lemma TotalPagesIsCeiling(totalItems: nat, perPage: nat, k: int)
    requires perPage >= 1
    requires totalItems <= k * perPage && (k - 1) * perPage < totalItems
    ensures k == TotalPages(totalItems, perPage)
  {
    var pages := TotalPages(totalItems, perPage);
    TotalPagesBounds(totalItems, perPage);
    if k < pages {
      MulMonotone(k, pages - 1, perPage);
    } else if k > pages {
      MulMonotone(pages, k - 1, perPage);
    }
  }

  /** The number of items skipped before a page: `(page - 1) * per_page`. */
  function Offset(page: int, perPage: int): int {
    (page - 1) * perPage
  }

  /**
   * A page that exists starts inside the list, and every page before the
   * last is full.
   */
  lemma PageWithinList(totalItems: nat, page: int, perPage: int)
    requires totalItems > 0 && ValidQuery(page, perPage)
    requires page <= TotalPages(totalItems, perPage)
    ensures 0 <= Offset(page, perPage) < totalItems
    ensures page < TotalPages(totalItems, perPage) ==> Offset(page, perPage) + perPage <= totalItems
  {
    var pages := TotalPages(totalItems, perPage);
    TotalPagesBounds(totalItems, perPage);
    MulMonotone(0, page - 1, perPage);
    MulMonotone(page - 1, pages - 1, perPage);
    if page < pages {
      MulMonotone(page, pages - 1, perPage);
      assert Offset(page, perPage) + perPage == page * perPage;
    }
  }

  function Min(a: int, b: int): int {
    if a <= b then a else b
  }

  /**
   * One page of a list already ordered by id descending. An empty list, and a
   * page past the last, are not found; otherwise the page carries the totals,
   * a link back when `page > 1` and a link forward when `page < totalPages`
   * (its items are described by PageItems).
   */
  function ReadPage<T>(byIdDesc: seq<T>, page: int, perPage: int): (r: Response<ListResponse<T>>)
    requires ValidQuery(page, perPage)
    ensures !r.Conflict?
    ensures r.NotFound? <==> |byIdDesc| == 0 || page > TotalPages(|byIdDesc|, perPage)
    ensures r.Ok? ==>
      && r.value.totalItems == |byIdDesc|
      && r.value.totalPages == TotalPages(|byIdDesc|, perPage)
      && (r.value.prevPage.Some? <==> page > 1)
      && (r.value.prevPage.Some? ==> r.value.prevPage.value == page - 1)
      && (r.value.nextPage.Some? <==> page < TotalPages(|byIdDesc|, perPage))
      && (r.value.nextPage.Some? ==> r.value.nextPage.value == page + 1)
  {
    var totalItems := |byIdDesc|;
    if totalItems == 0 then NotFound
    else
      var totalPages := TotalPages(totalItems, perPage);
      var offset := Offset(page, perPage);
      if page > totalPages then NotFound
      else
        PageWithinList(totalItems, page, perPage);
        var end := Min(totalItems, offset + perPage);
        var prevPage := if page > 1 then Some(page - 1) else None;
        var nextPage := if page < totalPages then Some(page + 1) else None;
        Ok(ListResponse(byIdDesc[offset..end], prevPage, nextPage, totalPages, totalItems))
  }

  /**
   * The items of a page that is found: those of the list from the offset on,
   * at least one and at most `perPage` of them, exactly `perPage` on every
   * page before the last, and on the last every item that remains.
   */
  lemma PageItems<T>(byIdDesc: seq<T>, page: int, perPage: int)
    requires ValidQuery(page, perPage) && ReadPage(byIdDesc, page, perPage).Ok?
    ensures var items := ReadPage(byIdDesc, page, perPage).value.movies;
      var off := Offset(page, perPage);
      && 0 <= off && 1 <= |items| <= perPage
      && (page < TotalPages(|byIdDesc|, perPage) ==> |items| == perPage)
      && off + |items| == Min(|byIdDesc|, off + perPage)
      && (forall j :: 0 <= j < |items| ==> items[j] == byIdDesc[off + j])
  {
    PageWithinList(|byIdDesc|, page, perPage);
  }

  /** The position i lies on page `i / perPage + 1`, which exists, at position `i % perPage`. */
  lemma PageOfPosition(totalItems: nat, perPage: int, i: int)
    requires 1 <= perPage && 0 <= i < totalItems
    ensures 1 <= i / perPage + 1 <= TotalPages(totalItems, perPage)
    ensures Offset(i / perPage + 1, perPage) + i % perPage == i && 0 <= i % perPage < perPage
  {
    var q, r := i / perPage, i % perPage;
    assert i == q * perPage + r;
    var pages := TotalPages(totalItems, perPage);
    TotalPagesBounds(totalItems, perPage);
    if q + 1 > pages {
      MulMonotone(pages, q, perPage);
    }
  }

  /**
   * The pages partition the list: the item at position i is found on page
   * `i / perPage + 1`, at position `i % perPage` of it.
   */
  lemma ItemOnItsPage<T>(byIdDesc: seq<T>, perPage: int, i: int)
    requires 1 <= perPage <= MaxPerPage && 0 <= i < |byIdDesc|
    ensures ReadPage(byIdDesc, i / perPage + 1, perPage).Ok?
    ensures i % perPage < |ReadPage(byIdDesc, i / perPage + 1, perPage).value.movies|
    ensures ReadPage(byIdDesc, i / perPage + 1, perPage).value.movies[i % perPage] == byIdDesc[i]
  {
    PageOfPosition(|byIdDesc|, perPage, i);
    ItemOnPage(byIdDesc, i / perPage + 1, perPage, i % perPage);
  }

  /** Every position of the list on or after a page's offset, and within its size, is shown by that page. */
  lemma ItemOnPage<T>(byIdDesc: seq<T>, page: int, perPage: int, j: int)
    requires ValidQuery(page, perPage) && page <= TotalPages(|byIdDesc|, perPage)
    requires 0 <= j < perPage && Offset(page, perPage) + j < |byIdDesc|
    ensures ReadPage(byIdDesc, page, perPage).Ok?
    ensures j < |ReadPage(byIdDesc, page, perPage).value.movies|
    ensures ReadPage(byIdDesc, page, perPage).value.movies[j] == byIdDesc[Offset(page, perPage) + j]
  {
    PageItems(byIdDesc, page, perPage);
  }

  /** Following a page's links never leads to a page that is not found. */
  lemma LinksLeadToPages<T>(byIdDesc: seq<T>, page: int, perPage: int)
    requires ValidQuery(page, perPage) && ReadPage(byIdDesc, page, perPage).Ok?
    ensures var links := ReadPage(byIdDesc, page, perPage).value;
      && (links.prevPage.Some? ==> ReadPage(byIdDesc, links.prevPage.value, perPage).Ok?)
      && (links.nextPage.Some? ==> ReadPage(byIdDesc, links.nextPage.value, perPage).Ok?)
  {
  }
}
