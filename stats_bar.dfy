/**
 * The figures of the statistics bar, computed in the browser from the list it
 * is given: counts, and two percentages rounded to one decimal. Percentages are
 * integers in tenths of a percent (667 stands for 66.7).
 */
module StatsBar {
  import opened PRModel

  /**
   * `Math.round(count / total * 1000)`, taken on exact rationals: the nearest
   * integer to 1000 * count / total, halves rounded up; 0 when there are no
   * records, with no division.
   */
  function RoundedTenths(count: nat, total: nat): (r: nat)
    ensures total == 0 ==> r == 0
    ensures total > 0 ==> 2 * total * r <= 2000 * count + total < 2 * total * (r + 1)
    ensures count <= total ==> r <= 1000
  {
    if total == 0 then 0
    else
      var r := (2000 * count + total) / (2 * total);
      DivBounds(2000 * count + total, 2 * total);
      TenthsAtMostAll(count, total, r);
      r
  }

  lemma DivBounds(x: nat, d: nat)
    requires d > 0
    ensures d * (x / d) <= x < d * (x / d + 1)
  {
  }

  lemma TenthsAtMostAll(count: nat, total: nat, r: nat)
    requires 0 < total
    requires 2 * total * r <= 2000 * count + total
    ensures count <= total ==> r <= 1000
  {
    if count <= total && r > 1000 {
      MulMonotone(2000, count, total);
      MulMonotone(2 * total, 1001, r);
      assert false;
    }
  }

  lemma MulMonotone(k: nat, x: int, y: int)
    requires x <= y
    ensures k * x <= k * y
  {
    assert k * y - k * x == k * (y - x);
  }

  /** The figures the bar shows for `prs`. */
  function BarStats(prs: seq<PRInfo>): (s: PRStats)
    ensures s.total == |prs|
    ensures s.reviewed == CountReviewed(prs) && s.with2Approvals == CountWith2Approvals(prs)
    ensures s.reviewed <= s.total && s.with2Approvals <= s.total
    ensures s.reviewed + s.notReviewed == s.total
    ensures s.total == 0 ==> s.reviewedPercent == 0 && s.with2ApprovalsPercent == 0
    ensures s.reviewedPercent <= 1000 && s.with2ApprovalsPercent <= 1000
    ensures s.reviewedPercent == RoundedTenths(s.reviewed, s.total)
    ensures s.with2ApprovalsPercent == RoundedTenths(s.with2Approvals, s.total)
  {
    var total := |prs|;
    var reviewed := CountReviewed(prs);
    var with2 := CountWith2Approvals(prs);
    PRStats(total, reviewed, total - reviewed, RoundedTenths(reviewed, total),
            with2, RoundedTenths(with2, total))
  }

  /** Whether the approvals card uses the "all approved" style. */
  predicate AllApprovedStyle(prs: seq<PRInfo>)
  {
    var s := BarStats(prs);
    s.with2Approvals == s.total && s.total > 0
  }

  /** The "all approved" style is shown exactly when there are records and each has two approvals. */
  lemma AllApprovedStyleIff(prs: seq<PRInfo>)
    ensures AllApprovedStyle(prs) <==> |prs| > 0 && forall i :: 0 <= i < |prs| ==> prs[i].approvalCount >= 2
  {
    CountWith2ApprovalsAll(prs);
  }

  /** Every record reviewed reads 100.0%; none reviewed reads 0.0%. */
  lemma {:induction false} ReviewedPercentExtremes(prs: seq<PRInfo>)
    requires |prs| > 0
    ensures (forall i :: 0 <= i < |prs| ==> prs[i].reviewed) ==> BarStats(prs).reviewedPercent == 1000
    ensures CountReviewed(prs) == 0 ==> BarStats(prs).reviewedPercent == 0
  {
    CountReviewedAll(prs);
    var t := |prs|;
    var r := BarStats(prs).reviewedPercent;
    if CountReviewed(prs) == t && r < 1000 {
      assert 2000 * t + t < 2 * t * (r + 1);
      MulMonotone(2 * t, r + 1, 1000);
      assert false;
    }
    if CountReviewed(prs) == 0 && r > 0 {
      assert 2 * t * r <= t;
      MulMonotone(2 * t, 1, r);
      assert false;
    }
  }

  /** The bar shows the same figures whatever order the records come in. */
  lemma BarStatsOrderIndependent(a: seq<PRInfo>, b: seq<PRInfo>)
    requires multiset(a) == multiset(b)
    ensures BarStats(a) == BarStats(b)
  {
    CountsInvariantUnderPermutation(a, b);
    assert |a| == |multiset(a)| == |multiset(b)| == |b|;
  }

  /** Two of three reads 66.7%, and one of sixteen (6.25%) rounds its half up to 6.3%. */
  lemma RoundingExamples()
    ensures RoundedTenths(2, 3) == 667
    ensures RoundedTenths(1, 16) == 63
  {
  }
}
