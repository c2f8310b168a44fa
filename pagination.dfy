/**
 * The table's paging arithmetic: a fixed page size, the page count, the
 * clamping of a stale page index, and the rows of one page.
 */
module Pagination {

  const PageSize: nat := 10

  /** `Math.max(1, Math.ceil(n / PageSize))`: the fewest pages holding `n` rows, and at least one. */
  function TotalPages(n: nat): (t: nat)
    ensures t >= 1
    ensures n <= t * PageSize
    ensures n > 0 ==> (t - 1) * PageSize < n
    ensures n <= PageSize ==> t == 1
  {
    if n == 0 then 1 else (n + PageSize - 1) / PageSize
  }

  /** `Math.min(page, totalPages - 1)`: the page actually shown. */
  function SafePage(page: nat, n: nat): (p: nat)
    ensures p < TotalPages(n)
    ensures p <= page
    ensures p == page || p == TotalPages(n) - 1
  {
    if page < TotalPages(n) then page else TotalPages(n) - 1
  }

  /** `Array.prototype.slice(start, end)` for non-negative bounds: both are clamped to the length. */
  function Slice<T>(s: seq<T>, start: nat, end: nat): (r: seq<T>)
    ensures var lo := if start < |s| then start else |s|;
            var hi := if end < |s| then end else |s|;
            |r| == (if lo <= hi then hi - lo else 0) &&
            forall i :: 0 <= i < |r| ==> r[i] == s[lo + i]
  {
    var lo := if start < |s| then start else |s|;
    var hi := if end < |s| then end else |s|;
    if lo <= hi then s[lo..hi] else []
  }

  /**
   * The rows shown for a requested page index: the consecutive rows starting
   * at the shown page's first index, at most a page size of them, fewer only
   * on the last page, and none only when there are no rows.
   */
  function PageRows<T>(sorted: seq<T>, page: nat): (r: seq<T>)
    ensures var start := SafePage(page, |sorted|) * PageSize;
            start <= |sorted| &&
            |r| == (if |sorted| - start < PageSize then |sorted| - start else PageSize) &&
            (forall i :: 0 <= i < |r| ==> r[i] == sorted[start + i]) &&
            (|sorted| > 0 ==> |r| > 0)
  {
    var p := SafePage(page, |sorted|);
    Slice(sorted, p * PageSize, (p + 1) * PageSize)
  }

  /** A page index beyond the last page (the rows shrank) shows the last page. */
  lemma StalePageShowsLast<T>(sorted: seq<T>, page: nat)
    requires page >= TotalPages(|sorted|)
    ensures PageRows(sorted, page) == PageRows(sorted, TotalPages(|sorted|) - 1)
  {
  }

  /** The pages before page `k`, concatenated. */
  function PagesBefore<T>(sorted: seq<T>, k: nat): seq<T>
  {
    if k == 0 then [] else PagesBefore(sorted, k - 1) + PageRows(sorted, k - 1)
  }

  /** An existing page `j` starts at row `j * PageSize` and runs to the next page's start or the end. */
  lemma PageRowsAt<T>(sorted: seq<T>, j: nat)
    requires j < TotalPages(|sorted|)
    ensures j * PageSize <= |sorted|
    ensures (j + 1) * PageSize <= |sorted| ==> PageRows(sorted, j) == sorted[j * PageSize..(j + 1) * PageSize]
    ensures (j + 1) * PageSize > |sorted| ==> PageRows(sorted, j) == sorted[j * PageSize..]
  {
    assert SafePage(j, |sorted|) == j;
  }

  lemma SliceJoin<T>(s: seq<T>, i: nat, j: nat)
    requires i <= j <= |s|
    ensures s[..i] + s[i..j] == s[..j]
  {
  }

  lemma {:induction false} PagesBeforePrefix<T>(sorted: seq<T>, k: nat)
    requires k <= TotalPages(|sorted|)
    ensures k * PageSize <= |sorted| ==> PagesBefore(sorted, k) == sorted[..k * PageSize]
    ensures k * PageSize > |sorted| ==> PagesBefore(sorted, k) == sorted
  {
    if k > 0 {
      PagesBeforePrefix(sorted, k - 1);
      PageRowsAt(sorted, k - 1);
      var start := (k - 1) * PageSize;
      assert start + PageSize == k * PageSize;
      assert PagesBefore(sorted, k - 1) == sorted[..start];
      if k * PageSize <= |sorted| {
        SliceJoin(sorted, start, k * PageSize);
      } else {
        SliceJoin(sorted, start, |sorted|);
        assert sorted[start..|sorted|] == sorted[start..];
        assert sorted[..|sorted|] == sorted;
      }
    }
  }

  /** Walking the pages from the first to the last shows every row once, in order. */
  lemma AllPagesRebuildRows<T>(sorted: seq<T>)
    ensures PagesBefore(sorted, TotalPages(|sorted|)) == sorted
  {
    PagesBeforePrefix(sorted, TotalPages(|sorted|));
    if TotalPages(|sorted|) * PageSize <= |sorted| {
      assert sorted[..TotalPages(|sorted|) * PageSize] == sorted;
    }
  }

  /** "First" and "previous" are enabled off the first page. */
  predicate CanGoBack(page: nat, n: nat)
  {
    SafePage(page, n) != 0
  }

  /** "Next" and "last" are enabled before the last page. */
  predicate CanGoForward(page: nat, n: nat)
  {
    SafePage(page, n) < TotalPages(n) - 1
  }

  /**
   * The navigation bar is rendered only when there is more than one page, and
   * exactly then some button is enabled: a single page leaves nothing to click.
   */
  lemma NavigationShownIffUsable(page: nat, n: nat)
    ensures TotalPages(n) > 1 <==> (CanGoBack(page, n) || CanGoForward(page, n))
    ensures TotalPages(n) > 1 <==> n > PageSize
  {
  }
}
