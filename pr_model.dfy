/**
 * The pull-request record shared by the backend response model and the
 * frontend type, the statistics record, and the two counts both sides derive
 * from a list of records.
 */
module PRModel {

  /** Derived pull-request state; its wire form is the lower-case name. */
  datatype Status = Open | Merged | Closed

  /** Label-driven human review state; `NoReview` travels as "none". */
  datatype HumanReview = Waiting | Approved | NoReview

  function StatusName(s: Status): string
  {
    match s
    case Open => "open"
    case Merged => "merged"
    case Closed => "closed"
  }

  function HumanReviewName(h: HumanReview): string
  {
    match h
    case Waiting => "waiting"
    case Approved => "approved"
    case NoReview => "none"
  }

  /**
   * One pull request. `createdAt` is the creation time as GitHub's fixed-width
   * UTC text (`2024-05-01T09:30:00Z`), whose lexicographic order is time order.
   */
  datatype PRInfo = PRInfo(
    number: int,
    title: string,
    author: string,
    repo: string,
    createdAt: string,
    url: string,
    status: Status,
    reviewed: bool,
    humanReview: HumanReview,
    reviewers: seq<string>,
    approvedBy: seq<string>,
    approvalCount: nat)

  /** Summary counts; the two percentages are in tenths of a percent (667 is 66.7%). */
  datatype PRStats = PRStats(
    total: nat,
    reviewed: nat,
    notReviewed: int,
    reviewedPercent: nat,
    with2Approvals: nat,
    with2ApprovalsPercent: nat)

  datatype PRListResponse = PRListResponse(prs: seq<PRInfo>, stats: PRStats)

  /** Number of records whose automated review is done. */
  function CountReviewed(prs: seq<PRInfo>): (c: nat)
    ensures c <= |prs|
  {
    if prs == [] then 0 else (if prs[0].reviewed then 1 else 0) + CountReviewed(prs[1..])
  }

  /** Number of records with at least two approvals. */
  function CountWith2Approvals(prs: seq<PRInfo>): (c: nat)
    ensures c <= |prs|
  {
    if prs == [] then 0 else (if prs[0].approvalCount >= 2 then 1 else 0) + CountWith2Approvals(prs[1..])
  }

  lemma {:induction false} CountReviewedAll(prs: seq<PRInfo>)
    ensures CountReviewed(prs) == |prs| <==> forall i :: 0 <= i < |prs| ==> prs[i].reviewed
  {
    if prs != [] {
      CountReviewedAll(prs[1..]);
      assert forall i :: 1 <= i < |prs| ==> prs[i] == prs[1..][i - 1];
    }
  }

  lemma {:induction false} CountWith2ApprovalsAll(prs: seq<PRInfo>)
    ensures CountWith2Approvals(prs) == |prs| <==> forall i :: 0 <= i < |prs| ==> prs[i].approvalCount >= 2
  {
    if prs != [] {
      CountWith2ApprovalsAll(prs[1..]);
      assert forall i :: 1 <= i < |prs| ==> prs[i] == prs[1..][i - 1];
    }
  }

  /** Counting does not depend on the order of the records. */
  lemma {:induction false} CountsInvariantUnderPermutation(a: seq<PRInfo>, b: seq<PRInfo>)
    requires multiset(a) == multiset(b)
    ensures CountReviewed(a) == CountReviewed(b)
    ensures CountWith2Approvals(a) == CountWith2Approvals(b)
    decreases |a|
  {
    if a != [] {
      assert a[0] in multiset(b);
      var k :| 0 <= k < |b| && b[k] == a[0];
      RemoveMatching(a, b, k);
      CountsInvariantUnderPermutation(a[1..], b[..k] + b[k + 1..]);
      CountsOfRemoval(b, k);
    }
  }

  /** Taking the first record off `a` and an equal one off `b` keeps the two multisets equal. */
  lemma RemoveMatching<T>(a: seq<T>, b: seq<T>, k: nat)
    requires multiset(a) == multiset(b) && a != [] && k < |b| && b[k] == a[0]
    ensures multiset(a[1..]) == multiset(b[..k] + b[k + 1..])
  {
    assert b == b[..k] + [b[k]] + b[k + 1..];
    assert multiset(b) == multiset(b[..k]) + multiset{b[k]} + multiset(b[k + 1..]);
    assert a == [a[0]] + a[1..];
    assert multiset(a) == multiset{a[0]} + multiset(a[1..]);
    assert multiset(b[..k] + b[k + 1..]) == multiset(b[..k]) + multiset(b[k + 1..]);
    assert multiset(a[1..]) == multiset(a) - multiset{a[0]};
  }

  lemma {:induction false} CountsOfRemoval(b: seq<PRInfo>, k: nat)
    requires k < |b|
    ensures CountReviewed(b) == (if b[k].reviewed then 1 else 0) + CountReviewed(b[..k] + b[k + 1..])
    ensures CountWith2Approvals(b) == (if b[k].approvalCount >= 2 then 1 else 0) + CountWith2Approvals(b[..k] + b[k + 1..])
  {
    if k > 0 {
      CountsOfRemoval(b[1..], k - 1);
      assert b[..k] + b[k + 1..] == [b[0]] + (b[1..][..k - 1] + b[1..][k..]);
    } else {
      assert b[..k] + b[k + 1..] == b[1..];
    }
  }
}
