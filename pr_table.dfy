/**
 * The table component's own state: the sort column, the direction and the
 * requested page, with the header click and the four navigation buttons.
 * The rows come from the parent on every render, so the operations that
 * depend on them take the current rows (or their number) as a parameter.
 */
module PRTable {
  import opened PRModel
  import opened PRSort
  import opened Pagination

  class TableState {
    var sortKey: SortKey
    var sortAsc: bool
    var page: nat

    /** A fresh table sorts by creation time, newest first, on the first page. */
    constructor()
      ensures sortKey == ByCreatedAt && !sortAsc && page == 0
    {
      sortKey := ByCreatedAt;
      sortAsc := false;
      page := 0;
    }

    /** The rows in display order; the parent's list itself is left as it is. */
    function Sorted(prs: seq<PRInfo>): (r: seq<PRInfo>)
      reads this
      ensures multiset(r) == multiset(prs)
      ensures forall i, j :: 0 <= i < j < |r| ==> Directed(sortKey, sortAsc, r[i], r[j]) <= 0
      ensures forall p :: Group(sortKey, r, p) == Group(sortKey, prs, p)
    {
      SortRowsIsStable(sortKey, sortAsc, prs);
      SortRows(sortKey, sortAsc, prs)
    }

    /** The page index in effect for `n` rows. */
    function ShownPage(n: nat): (p: nat)
      reads this
      ensures p < TotalPages(n)
      ensures page < TotalPages(n) ==> p == page
    {
      SafePage(page, n)
    }

    /** The rows on screen. */
    function Shown(prs: seq<PRInfo>): (r: seq<PRInfo>)
      reads this
      ensures r == PageRows(Sorted(prs), ShownPage(|prs|))
      ensures |r| <= PageSize
      ensures var start := ShownPage(|prs|) * PageSize;
              start <= |prs| &&
              |r| == (if |prs| - start < PageSize then |prs| - start else PageSize) &&
              forall i :: 0 <= i < |r| ==> r[i] == Sorted(prs)[start + i]
    {
      PageRows(Sorted(prs), page)
    }

    /**
     * A header click: the same column flips the direction, another column
     * becomes the sort column in ascending order; both go back to the first page.
     */
    method HandleSort(key: SortKey)
      modifies this
      ensures sortKey == key && page == 0
      ensures old(sortKey) == key ==> sortAsc == !old(sortAsc)
      ensures old(sortKey) != key ==> sortAsc
    {
      if key == sortKey {
        sortAsc := !sortAsc;
      } else {
        sortKey := key;
        sortAsc := true;
      }
      page := 0;
    }

    /** The "first page" button with `n` rows; disabled on the first page. */
    method GoFirst(n: nat)
      modifies this
      ensures sortKey == old(sortKey) && sortAsc == old(sortAsc)
      ensures page == (if CanGoBack(old(page), n) then 0 else old(page))
    {
      if SafePage(page, n) != 0 {
        page := 0;
      }
    }

    /** The "previous page" button; moves back one from the page shown, never below 0. */
    method GoPrev(n: nat)
      modifies this
      ensures sortKey == old(sortKey) && sortAsc == old(sortAsc)
      ensures CanGoBack(old(page), n) ==> page == SafePage(old(page), n) - 1 && page < TotalPages(n)
      ensures !CanGoBack(old(page), n) ==> page == old(page)
    {
      var safe := SafePage(page, n);
      if safe != 0 {
        page := safe - 1;
      }
    }

    /** The "next page" button; moves on one from the page shown, never past the last page. */
    method GoNext(n: nat)
      modifies this
      ensures sortKey == old(sortKey) && sortAsc == old(sortAsc)
      ensures CanGoForward(old(page), n) ==> page == SafePage(old(page), n) + 1 && page < TotalPages(n)
      ensures !CanGoForward(old(page), n) ==> page == old(page)
    {
      var safe := SafePage(page, n);
      if safe < TotalPages(n) - 1 {
        page := safe + 1;
      }
    }

    /** The "last page" button; disabled on the last page. */
    method GoLast(n: nat)
      modifies this
      ensures sortKey == old(sortKey) && sortAsc == old(sortAsc)
      ensures CanGoForward(old(page), n) ==> page == TotalPages(n) - 1
      ensures !CanGoForward(old(page), n) ==> page == old(page)
    {
      if SafePage(page, n) < TotalPages(n) - 1 {
        page := TotalPages(n) - 1;
      }
    }
  }

  /**
   * Clicking the sort column twice restores the direction, and a click always
   * leaves the sort column set to the clicked one, whatever the state before.
   */
  method DoubleClickRestoresDirection(t: TableState, key: SortKey)
    modifies t
    ensures t.sortKey == key && t.page == 0
    ensures old(t.sortKey) == key ==> t.sortAsc == old(t.sortAsc)
    ensures old(t.sortKey) != key ==> !t.sortAsc
  {
    t.HandleSort(key);
    t.HandleSort(key);
  }

  /**
   * From a fresh table with 25 rows, "last" shows the third page of five rows,
   * and "next" there changes nothing.
   */
  method LastPageScenario(prs: seq<PRInfo>) returns (shown: nat, rows: nat, after: nat)
    requires |prs| == 25
    ensures shown == 2 && rows == 5 && after == 2
  {
    var t := new TableState();
    t.GoLast(|prs|);
    shown := t.ShownPage(|prs|);
    rows := |t.Shown(prs)|;
    t.GoNext(|prs|);
    after := t.ShownPage(|prs|);
  }
}
