/**
 * The table's comparator (one case per column), the direction flag applied by
 * negation, and the stable sort of the rows by it.
 */
module PRSort {
  import opened Strings
  import opened PRModel
  import StableSort

  /** The sortable columns. */
  datatype SortKey = ByRepo | ByTitle | ByAuthor | ByCreatedAt | ByStatus | ByReviewed | ByHumanReview | ByReviewers | ByApprovals

  function BoolNumber(b: bool): int
  {
    if b then 1 else 0
  }

  /** The comparator for one column, before the direction is applied. */
  function Compare(key: SortKey, a: PRInfo, b: PRInfo): int
  {
    match key
    case ByRepo => LexCompare(a.repo, b.repo)
    case ByTitle => a.number - b.number
    case ByAuthor => LexCompare(a.author, b.author)
    case ByCreatedAt => LexCompare(a.createdAt, b.createdAt)
    case ByStatus => LexCompare(StatusName(a.status), StatusName(b.status))
    case ByReviewed => BoolNumber(a.reviewed) - BoolNumber(b.reviewed)
    case ByHumanReview => LexCompare(HumanReviewName(a.humanReview), HumanReviewName(b.humanReview))
    case ByReviewers => LexCompare(Join(a.reviewers, ","), Join(b.reviewers, ","))
    case ByApprovals => a.approvalCount - b.approvalCount
  }

  /** Ascending uses the comparator as it is; descending negates it. */
  function Directed(key: SortKey, asc: bool, a: PRInfo, b: PRInfo): int
  {
    if asc then Compare(key, a, b) else -Compare(key, a, b)
  }

  function Comparator(key: SortKey, asc: bool): (PRInfo, PRInfo) -> int
  {
    (a: PRInfo, b: PRInfo) => Directed(key, asc, a, b)
  }

  /** The rows ordered by column `key` in direction `asc` (a sorted copy). */
  function SortRows(key: SortKey, asc: bool, prs: seq<PRInfo>): (r: seq<PRInfo>)
    ensures |r| == |prs| && multiset(r) == multiset(prs)
  {
    StableSort.Sort(Comparator(key, asc), prs)
  }

  /** Whether two rows have equal keys for `key`; the same in both directions. */
  predicate Tied(key: SortKey, a: PRInfo, b: PRInfo)
  {
    Compare(key, a, b) == 0
  }

  /** The rows of `s` whose `key` equals that of `p`, in order. */
  function Group(key: SortKey, s: seq<PRInfo>, p: PRInfo): seq<PRInfo>
  {
    StableSort.Ties(Comparator(key, true), s, p)
  }

  lemma CompareAntisymmetric(key: SortKey, a: PRInfo, b: PRInfo)
    ensures Compare(key, a, b) == -Compare(key, b, a)
  {
    match key
    case ByRepo => LexCompareAntisymmetric(a.repo, b.repo);
    case ByAuthor => LexCompareAntisymmetric(a.author, b.author);
    case ByCreatedAt => LexCompareAntisymmetric(a.createdAt, b.createdAt);
    case ByStatus => LexCompareAntisymmetric(StatusName(a.status), StatusName(b.status));
    case ByHumanReview => LexCompareAntisymmetric(HumanReviewName(a.humanReview), HumanReviewName(b.humanReview));
    case ByReviewers => LexCompareAntisymmetric(Join(a.reviewers, ","), Join(b.reviewers, ","));
    case _ =>
  }

  lemma CompareTransitive(key: SortKey, a: PRInfo, b: PRInfo, c: PRInfo)
    requires Compare(key, a, b) <= 0 && Compare(key, b, c) <= 0
    ensures Compare(key, a, c) <= 0
  {
    match key
    case ByRepo => LexCompareTransitive(a.repo, b.repo, c.repo);
    case ByAuthor => LexCompareTransitive(a.author, b.author, c.author);
    case ByCreatedAt => LexCompareTransitive(a.createdAt, b.createdAt, c.createdAt);
    case ByStatus => LexCompareTransitive(StatusName(a.status), StatusName(b.status), StatusName(c.status));
    case ByHumanReview =>
      LexCompareTransitive(HumanReviewName(a.humanReview), HumanReviewName(b.humanReview), HumanReviewName(c.humanReview));
    case ByReviewers => LexCompareTransitive(Join(a.reviewers, ","), Join(b.reviewers, ","), Join(c.reviewers, ","));
    case _ =>
  }

  /** Every column, in either direction, gives a consistent comparator. */
  lemma ComparatorIsConsistent(key: SortKey, asc: bool)
    ensures StableSort.IsComparator(Comparator(key, asc))
  {
    var cmp := Comparator(key, asc);
    forall a, b ensures StableSort.AntisymmetricAt(cmp, a, b) {
      CompareAntisymmetric(key, a, b);
    }
    forall a, b, c ensures StableSort.TransitiveAt(cmp, a, b, c) {
      if cmp(a, b) <= 0 && cmp(b, c) <= 0 {
        if asc {
          CompareTransitive(key, a, b, c);
        } else {
          CompareAntisymmetric(key, a, b);
          CompareAntisymmetric(key, b, c);
          CompareAntisymmetric(key, a, c);
          CompareTransitive(key, c, b, a);
        }
      }
    }
  }

  /** The descending comparator is the negation of the ascending one. */
  lemma DescendingNegates(key: SortKey)
    ensures forall a, b :: Comparator(key, false)(a, b) == -Comparator(key, true)(a, b)
  {
  }

  /**
   * The sorted rows are a permutation of the input, ordered by the directed
   * comparator, and each group of equal-key rows keeps its input order in
   * both directions.
   */
  lemma {:induction false} SortRowsIsStable(key: SortKey, asc: bool, prs: seq<PRInfo>)
    ensures multiset(SortRows(key, asc, prs)) == multiset(prs)
    ensures var r := SortRows(key, asc, prs);
            forall i, j :: 0 <= i < j < |r| ==> Directed(key, asc, r[i], r[j]) <= 0
    ensures forall p :: Group(key, SortRows(key, asc, prs), p) == Group(key, prs, p)
  {
    ComparatorIsConsistent(key, asc);
    StableSort.SortIsStable(Comparator(key, asc), prs);
    var r := SortRows(key, asc, prs);
    forall p ensures Group(key, r, p) == Group(key, prs, p) {
      if !asc {
        StableSort.NegatedTies(Comparator(key, true), Comparator(key, false), r, p);
        StableSort.NegatedTies(Comparator(key, true), Comparator(key, false), prs, p);
      }
    }
  }

  /**
   * Any ordering of the rows that is sorted by the directed comparator and keeps
   * equal-key rows in input order is `SortRows`: the browser's stable sort
   * returns the same table.
   */
  lemma AnyStableSortIsSortRows(key: SortKey, asc: bool, t: seq<PRInfo>, prs: seq<PRInfo>)
    requires forall i, j :: 0 <= i < j < |t| ==> Directed(key, asc, t[i], t[j]) <= 0
    requires forall p :: Group(key, t, p) == Group(key, prs, p)
    ensures t == SortRows(key, asc, prs)
  {
    var cmp := Comparator(key, asc);
    ComparatorIsConsistent(key, asc);
    ComparatorIsConsistent(key, true);
    forall p ensures StableSort.Ties(cmp, t, p) == StableSort.Ties(cmp, prs, p) {
      assert Group(key, t, p) == Group(key, prs, p);
      if !asc {
        DescendingNegates(key);
        StableSort.NegatedTies(Comparator(key, true), Comparator(key, false), t, p);
        StableSort.NegatedTies(Comparator(key, true), Comparator(key, false), prs, p);
      }
    }
    StableSort.StableSortUnique(cmp, t, prs);
  }

  /**
   * Clicking a column a second time shows the first order reversed when no two
   * rows share a key for that column.
   */
  lemma DescendingReversesWhenKeysDistinct(key: SortKey, prs: seq<PRInfo>)
    requires forall i, j :: 0 <= i < j < |prs| ==> !Tied(key, prs[i], prs[j])
    ensures SortRows(key, false, prs) == StableSort.Reverse(SortRows(key, true, prs))
  {
    ComparatorIsConsistent(key, true);
    StableSort.NegatedSortIsReverse(Comparator(key, true), Comparator(key, false), prs);
  }

  /** With a tie, the second click does not reverse the first: ties keep input order. */
  lemma TiesSurviveSecondClick(a: PRInfo)
    ensures var b := a.(number := a.number + 1);
            SortRows(ByRepo, true, [a, b]) == [a, b] &&
            SortRows(ByRepo, false, [a, b]) == [a, b] &&
            StableSort.Reverse(SortRows(ByRepo, true, [a, b])) == [b, a]
  {
    var b := a.(number := a.number + 1);
    LexCompareZero(a.repo, b.repo);
    assert [a, b][1..] == [b];
    assert SortRows(ByRepo, true, [b]) == [b];
    assert SortRows(ByRepo, false, [b]) == [b];
  }

  /** Sorting by "title" orders the rows by PR number, whatever their titles. */
  lemma TitleSortOrdersByNumber(asc: bool, prs: seq<PRInfo>)
    ensures var r := SortRows(ByTitle, asc, prs);
            forall i, j :: 0 <= i < j < |r| ==>
              if asc then r[i].number <= r[j].number else r[i].number >= r[j].number
  {
    SortRowsIsStable(ByTitle, asc, prs);
  }

  /**
   * Sorting by "reviewers" compares the comma-joined names as one string:
   * ["amy"] ("amy") comes before ["bob", "amy"] ("bob,amy").
   */
  lemma ReviewersSortExample(pr1: PRInfo, pr2: PRInfo)
    requires pr1.reviewers == ["bob", "amy"] && pr2.reviewers == ["amy"]
    ensures SortRows(ByReviewers, true, [pr1, pr2]) == [pr2, pr1]
  {
    assert Join(pr1.reviewers, ",") == "bob,amy";
    JoinSingle("amy", ",");
    assert LexCompare("amy", "bob,amy") == -1;
    assert [pr1, pr2][1..] == [pr2];
    assert SortRows(ByReviewers, true, [pr2]) == [pr2];
  }
}
