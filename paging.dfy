/** Page/limit arithmetic shared by the list endpoints: `parseInt(q) || default`,
    `offset = (page - 1) * limit`, `Math.ceil(count / limit)` pages, and the
    `hasNext`/`hasPrev` flags. */
module Paging {
  import opened Common

  /** `parseInt(q) || fallback`. A query value is given already parsed; `None`
      stands for an absent or non-numeric value (`NaN`). Zero is falsy, so it
      also takes the fallback. */
  function QueryIntOr(q: Option<int>, fallback: int): int
  {
    if q.Some? && q.value != 0 then q.value else fallback
  }

  /** The value of `parseInt(q) || fallback` is never zero when the fallback is not. */
  lemma QueryIntNonZero(q: Option<int>, fallback: int)
    requires fallback != 0
    ensures QueryIntOr(q, fallback) != 0
    ensures q.Some? && q.value != 0 ==> QueryIntOr(q, fallback) == q.value
  {
  }

  function Offset(page: int, limit: int): int
  {
    (page - 1) * limit
  }

  datatype PageInfo = PageInfo(currentPage: int, totalPages: int, totalItems: nat, hasNext: bool, hasPrev: bool)

  /** The pagination block of the admin list endpoints for `count` items after filtering. */
  function PageInfoOf(page: int, limit: int, count: nat): (p: PageInfo)
    requires limit != 0
    ensures p.totalItems == count && p.currentPage == page
    ensures limit > 0 ==> (p.totalPages - 1) * limit < count <= p.totalPages * limit
    ensures p.hasNext <==> page < p.totalPages
    ensures p.hasPrev <==> page > 1
  {
    var pages := CeilDiv(count, limit);
    PageInfo(page, pages, count, page < pages, page > 1)
  }

  /** For a positive limit and page, `hasNext` says exactly that items remain
      after the current page. */
  lemma HasNextIffItemsRemain(page: int, limit: int, count: nat)
    requires page >= 1 && limit >= 1
    ensures PageInfoOf(page, limit, count).hasNext <==> page * limit < count
  {
    var pages := PageInfoOf(page, limit, count).totalPages;
    if page < pages {
      MulMonotone(page, pages - 1, limit);
    } else {
      MulMonotone(pages, page, limit);
    }
  }

  /** For a positive limit and page, the page starts inside the item list
      exactly when its number is at most `totalPages`. */
  lemma PageNonEmptyIffWithinPages(page: int, limit: int, count: nat)
    requires page >= 1 && limit >= 1
    ensures Offset(page, limit) < count <==> page <= PageInfoOf(page, limit, count).totalPages
  {
    var pages := PageInfoOf(page, limit, count).totalPages;
    if page <= pages {
      MulMonotone(page - 1, pages - 1, limit);
    } else {
      MulMonotone(pages, page - 1, limit);
    }
  }

  lemma MulMonotone(a: int, b: int, k: int)
    requires a <= b && k >= 0
    ensures a * k <= b * k
  {
  }

  /** The items a page shows: `items.slice(offset, offset + limit)`. */
  function PageOf<T>(items: seq<T>, page: int, limit: int): seq<T>
  {
    JsSlice(items, Offset(page, limit), Offset(page, limit) + limit)
  }

  /** A page from 1 on never shows more than `limit` items. */
  lemma PageAtMostLimit<T>(items: seq<T>, page: int, limit: int)
    requires limit >= 1
    ensures page >= 1 ==> |PageOf(items, page, limit)| <= limit
  {
    if page >= 1 {
      MulMonotone(0, page - 1, limit);
      JsSliceWindow(items, Offset(page, limit), Offset(page, limit) + limit);
    }
  }

  /** Every item lies on exactly the page its index says, at the expected
      position, and that page is within `totalPages`. */
  lemma {:induction false} EveryItemOnItsPage<T>(items: seq<T>, limit: int, j: nat)
    requires limit >= 1 && j < |items|
    ensures var page := j / limit + 1;
      && 1 <= page <= PageInfoOf(page, limit, |items|).totalPages
      && Offset(page, limit) >= 0
      && j % limit < |PageOf(items, page, limit)|
      && PageOf(items, page, limit)[j % limit] == items[j]
  {
    var page := j / limit + 1;
    assert Offset(page, limit) == (j / limit) * limit;
    assert (j / limit) * limit + j % limit == j;
    MulMonotone(0, j / limit, limit);
    JsSliceWindow(items, Offset(page, limit), Offset(page, limit) + limit);
    PageNonEmptyIffWithinPages(page, limit, |items|);
  }
}
