/**
 * The arithmetic and the whitelist of the admin game list: which rows a page
 * shows, and which column it is ordered by.
 */
module AdminListing {
  import opened Wrappers

  /** The columns a caller may order the admin list by. */
  const ValidSortFields: seq<string> := ["title", "rating", "publishStatus", "isTrending", "createdAt", "publishedAt"]

  /** The number of rows before page `page` (pages are numbered from 1). */
  function Skip(page: int, limit: int): (s: int)
    ensures page >= 1 && limit >= 0 ==> s >= 0
    ensures page == 1 ==> s == 0
  {
    (page - 1) * limit
  }

  /** A row position appears on a page when the page's window of `limit` rows starting at `Skip` covers it. */
  predicate OnPage(page: int, limit: int, position: int) {
    Skip(page, limit) <= position < Skip(page, limit) + limit
  }

  lemma MulMonotone(a: int, b: int, c: int)
    requires a <= b && c >= 0
    ensures a * c <= b * c
  {
  }

  /** With a positive page size every row position appears on exactly one page. */
  lemma PagesPartitionRows(page: int, limit: int, position: int)
    requires limit > 0 && position >= 0
    ensures OnPage(page, limit, position) <==> page == position / limit + 1
  {
    var q := position / limit;
    assert q * limit <= position < q * limit + limit;
    if page - 1 < q {
      MulMonotone(page, q, limit);
      assert Skip(page, limit) + limit == page * limit;
    } else if page - 1 > q {
      MulMonotone(q + 1, page - 1, limit);
      assert (q + 1) * limit == q * limit + limit;
    }
  }

  /** Consecutive pages are adjacent windows, and the first starts at row 0. */
  lemma PagesAreAdjacent(page: int, limit: int)
    ensures Skip(1, limit) == 0
    ensures Skip(page + 1, limit) == Skip(page, limit) + limit
  {
  }

  /**
   * The ORDER BY column: `game.<sortBy>` when `sortBy` is whitelisted, and
   * `game.createdAt` otherwise (including when it is absent), so the column
   * name is never text the caller chose freely.
   */
  function SortField(sortBy: Option<string>): (f: string)
    ensures |f| > 5 && f[..5] == "game." && f[5..] in ValidSortFields
    ensures sortBy.Some? && sortBy.value in ValidSortFields ==> f[5..] == sortBy.value
    ensures !(sortBy.Some? && sortBy.value in ValidSortFields) ==> f[5..] == "createdAt"
  {
    if sortBy.Some? && sortBy.value in ValidSortFields then "game." + sortBy.value else "game.createdAt"
  }
}
