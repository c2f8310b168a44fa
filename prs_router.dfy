/**
 * The pull-request routes of the backend: the label and state derivations of
 * a row, the day bounds of the query window, the repository choice, the
 * collection loop with its ignore and status filters, the newest-first sort,
 * the summary figures of the response and the author listing.
 */
module PRsRouter {
  import opened Wrappers
  import opened Strings
  import opened PRModel
  import opened GitHubData
  import GitHubService
  import PRSort
  import StatsBar

  // ---------------------------------------------------------------------
  // Deriving a row
  // ---------------------------------------------------------------------

  /** Whether any label, lower-cased, is `name`. */
  predicate HasLabel(labels: seq<string>, name: string)
  {
    exists i :: 0 <= i < |labels| && Lower(labels[i]) == name
  }

  /** The lower-cased label names. */
  function LowerAll(labels: seq<string>): (r: seq<string>)
    ensures |r| == |labels|
    ensures forall i :: 0 <= i < |labels| ==> r[i] == Lower(labels[i])
  {
    if labels == [] then [] else [Lower(labels[0])] + LowerAll(labels[1..])
  }

  /** `_get_human_review`: an "approved" label wins over a "wait-review" one, in any case. */
  function HumanReviewOf(labels: seq<string>): (h: HumanReview)
    ensures h == Approved <==> HasLabel(labels, "approved")
    ensures h == Waiting <==> !HasLabel(labels, "approved") && HasLabel(labels, "wait-review")
    ensures h == NoReview <==> !HasLabel(labels, "approved") && !HasLabel(labels, "wait-review")
  {
    var names := LowerAll(labels);
    assert forall name :: name in names <==> HasLabel(labels, name);
    if "approved" in names then Approved
    else if "wait-review" in names then Waiting
    else NoReview
  }

  /** Label names are matched regardless of case: relabelling in another case changes nothing. */
  lemma LabelCaseIgnored(labels: seq<string>, other: seq<string>)
    requires |labels| == |other|
    requires forall i :: 0 <= i < |labels| ==> Lower(labels[i]) == Lower(other[i])
    ensures HumanReviewOf(labels) == HumanReviewOf(other)
  {
    forall name
      ensures HasLabel(labels, name) <==> HasLabel(other, name)
    {
      if HasLabel(labels, name) {
        var i :| 0 <= i < |labels| && Lower(labels[i]) == name;
        assert Lower(other[i]) == name;
      }
      if HasLabel(other, name) {
        var i :| 0 <= i < |other| && Lower(other[i]) == name;
        assert Lower(labels[i]) == name;
      }
    }
  }

  /** Only which labels are present matters, not their order or repetition. */
  lemma LabelOrderIgnored(labels: seq<string>, other: seq<string>)
    requires forall l :: l in labels <==> l in other
    ensures HumanReviewOf(labels) == HumanReviewOf(other)
  {
    forall name
      ensures HasLabel(labels, name) <==> HasLabel(other, name)
    {
      if HasLabel(labels, name) {
        var i :| 0 <= i < |labels| && Lower(labels[i]) == name;
        assert labels[i] in other;
        var j :| 0 <= j < |other| && other[j] == labels[i];
      }
      if HasLabel(other, name) {
        var i :| 0 <= i < |other| && Lower(other[i]) == name;
        assert other[i] in labels;
        var j :| 0 <= j < |labels| && labels[j] == other[i];
      }
    }
  }

  /** `_get_pr_status`: a non-empty merge time means merged, otherwise GitHub's state decides. */
  function StatusOf(pr: RawPR): (s: Status)
    ensures s == Merged <==> Truthy(pr.mergedAt)
    ensures s == Closed <==> !Truthy(pr.mergedAt) && pr.state == "closed"
    ensures s == Open <==> !Truthy(pr.mergedAt) && pr.state != "closed"
  {
    if Truthy(pr.mergedAt) then Merged
    else if pr.state == "closed" then Closed
    else Open
  }

  /** The response record of one enriched pull request of repository `repo`. */
  function ToPRInfo(repo: string, e: GitHubService.EnrichedPR): PRInfo
  {
    PRInfo(e.pr.number, e.pr.title, e.pr.login, repo, e.pr.createdAt, e.pr.htmlUrl,
           StatusOf(e.pr), e.reviewed, HumanReviewOf(e.pr.labels), e.reviewers,
           e.approvedBy, |e.approvedBy|)
  }

  /** The record carries the enrichment unchanged and counts exactly its approvers. */
  lemma ToPRInfoFaithful(repo: string, e: GitHubService.EnrichedPR)
    ensures var p := ToPRInfo(repo, e);
            p.number == e.pr.number && p.author == e.pr.login && p.repo == repo &&
            p.createdAt == e.pr.createdAt && p.reviewed == e.reviewed &&
            p.reviewers == e.reviewers && p.approvedBy == e.approvedBy &&
            p.approvalCount == |p.approvedBy| &&
            (p.status == Merged <==> Truthy(e.pr.mergedAt)) &&
            (p.humanReview == Approved <==> HasLabel(e.pr.labels, "approved"))
  {
  }

  // ---------------------------------------------------------------------
  // The query window
  // ---------------------------------------------------------------------

  /** The first second of date `d` ("YYYY-MM-DD"), as a timestamp. */
  function DayStart(d: string): string
  {
    d + "T00:00:00Z"
  }

  /** The last second of date `d`, as a timestamp. */
  function DayEnd(d: string): string
  {
    d + "T23:59:59Z"
  }

  predicate IsDigit(c: char)
  {
    '0' <= c <= '9'
  }

  /** A time of day as GitHub writes it: "HH:MM:SSZ" with hours below 24 and minutes and seconds below 60. */
  predicate IsClockTime(t: string)
  {
    |t| == 9 && IsDigit(t[0]) && IsDigit(t[1]) && t[2] == ':' && IsDigit(t[3]) && IsDigit(t[4]) &&
    t[5] == ':' && IsDigit(t[6]) && IsDigit(t[7]) && t[8] == 'Z' &&
    (t[0] < '2' || (t[0] == '2' && t[1] <= '3')) && t[3] <= '5' && t[6] <= '5'
  }

  lemma ClockTimeBounds(t: string)
    requires IsClockTime(t)
    ensures LexCompare("00:00:00Z", t) <= 0
    ensures LexCompare(t, "23:59:59Z") <= 0
  {
    var hi := "23:59:59Z";
    LexCompareCharwise("00:00:00Z", t);
    if t[0] < '2' {
      LexCompareAt(t, hi, 0);
    } else if t[1] < '3' {
      LexCompareAt(t, hi, 1);
    } else if t[3] < '5' {
      LexCompareAt(t, hi, 3);
    } else if t[4] < '9' {
      LexCompareAt(t, hi, 4);
    } else if t[6] < '5' {
      LexCompareAt(t, hi, 6);
    } else if t[7] < '9' {
      LexCompareAt(t, hi, 7);
    } else {
      assert t == hi;
      LexCompareZero(t, hi);
    }
  }

  /**
   * For dates of one width, the window from `DayStart(since)` to `DayEnd(until)`
   * holds every timestamp of the days from `since` to `until`, and no timestamp
   * of an earlier or a later day.
   */
  lemma {:induction false} WindowIsTheDays(since: string, until: string, d: string, time: string)
    requires |since| == |d| == |until|
    requires IsClockTime(time)
    ensures LexCompare(since, d) <= 0 && LexCompare(d, until) <= 0 ==>
              LexCompare(DayStart(since), d + "T" + time) <= 0 && LexCompare(d + "T" + time, DayEnd(until)) <= 0
    ensures LexCompare(d, since) < 0 ==> LexCompare(d + "T" + time, DayStart(since)) < 0
    ensures LexCompare(until, d) < 0 ==> LexCompare(DayEnd(until), d + "T" + time) < 0
  {
    var stamp := d + "T" + time;
    ClockTimeBounds(time);
    assert DayStart(d) == d + ("T" + "00:00:00Z") && stamp == d + ("T" + time) && DayEnd(d) == d + ("T" + "23:59:59Z");
    LexComparePrefix(d, "T" + "00:00:00Z", "T" + time);
    LexComparePrefix("T", "00:00:00Z", time);
    LexComparePrefix(d, "T" + time, "T" + "23:59:59Z");
    LexComparePrefix("T", time, "23:59:59Z");
    LexCompareZero(since, d);
    LexCompareZero(d, until);
    if LexCompare(since, d) < 0 {
      LexCompareExtend(since, d, "T00:00:00Z", "T" + time);
    }
    if LexCompare(d, until) < 0 {
      LexCompareExtend(d, until, "T" + time, "T23:59:59Z");
    }
    if LexCompare(d, since) < 0 {
      LexCompareExtend(d, since, "T" + time, "T00:00:00Z");
    }
    if LexCompare(until, d) < 0 {
      LexCompareExtend(until, d, "T23:59:59Z", "T" + time);
    }
  }

  /** `target_repos`: the requested repository when it is a configured one, otherwise all of them. */
  function TargetRepos(repo: Option<string>, repos: seq<string>): (t: seq<string>)
    ensures forall r :: r in t ==> r in repos
    ensures Truthy(repo) && repo.value in repos ==> t == [repo.value]
    ensures !(Truthy(repo) && repo.value in repos) ==> t == repos
  {
    if Truthy(repo) && repo.value in repos then [repo.value] else repos
  }

  // ---------------------------------------------------------------------
  // Collecting the rows of `list_prs`
  // ---------------------------------------------------------------------

  /** Whether an enriched pull request survives the ignore filter and the status filter. */
  predicate Shown(e: GitHubService.EnrichedPR, status: Option<string>, showIgnored: bool)
  {
    !(e.ignored && !showIgnored) && !(Truthy(status) && StatusName(StatusOf(e.pr)) != status.value)
  }

  /** What `enrich_prs` returns for `prs`. */
  function Enriched(gh: GitHub, repo: string, prs: seq<RawPR>): (es: seq<GitHubService.EnrichedPR>)
    ensures |es| == |prs|
    ensures forall i :: 0 <= i < |prs| ==> es[i] == GitHubService.EnrichedOf(gh, repo, prs[i])
  {
    seq(|prs|, i requires 0 <= i < |prs| => GitHubService.EnrichedOf(gh, repo, prs[i]))
  }

  /** The records of the shown pull requests of `es`, in order. */
  function Rows(repo: string, es: seq<GitHubService.EnrichedPR>, status: Option<string>, showIgnored: bool): seq<PRInfo>
  {
    if es == [] then []
    else
      var n := |es| - 1;
      Rows(repo, es[..n], status, showIgnored) +
      (if Shown(es[n], status, showIgnored) then [ToPRInfo(repo, es[n])] else [])
  }

  lemma RowsStep(repo: string, es: seq<GitHubService.EnrichedPR>, i: nat, status: Option<string>, showIgnored: bool)
    requires i < |es|
    ensures Shown(es[i], status, showIgnored) ==>
              Rows(repo, es[..i + 1], status, showIgnored) == Rows(repo, es[..i], status, showIgnored) + [ToPRInfo(repo, es[i])]
    ensures !Shown(es[i], status, showIgnored) ==>
              Rows(repo, es[..i + 1], status, showIgnored) == Rows(repo, es[..i], status, showIgnored)
  {
    assert es[..i + 1][..i] == es[..i];
  }

  /** A record is a row exactly when it is the record of a shown pull request of `es`. */
  lemma {:induction false} RowsMembers(repo: string, es: seq<GitHubService.EnrichedPR>, status: Option<string>, showIgnored: bool, p: PRInfo)
    ensures p in Rows(repo, es, status, showIgnored) <==>
            exists e :: e in es && Shown(e, status, showIgnored) && p == ToPRInfo(repo, e)
  {
    if es != [] {
      var n := |es| - 1;
      RowsMembers(repo, es[..n], status, showIgnored, p);
      assert es == es[..n] + [es[n]];
    }
  }

  /** One target repository with its enriched listing. */
  datatype Batch = Batch(repo: string, enriched: seq<GitHubService.EnrichedPR>)

  /** The enriched listing of each target, in target order. */
  function Batches(gh: GitHub, targets: seq<string>, since: string, until: string, author: Option<string>): (bs: seq<Batch>)
    ensures |bs| == |targets|
    ensures forall k :: 0 <= k < |targets| ==>
              bs[k] == Batch(targets[k], Enriched(gh, targets[k], GitHubService.ListedPRs(gh, targets[k], since, until, author)))
  {
    seq(|targets|, k requires 0 <= k < |targets| =>
      Batch(targets[k], Enriched(gh, targets[k], GitHubService.ListedPRs(gh, targets[k], since, until, author))))
  }

  /** The rows of all batches, batch by batch, before sorting. */
  function Collected(bs: seq<Batch>, status: Option<string>, showIgnored: bool): seq<PRInfo>
  {
    if bs == [] then []
    else
      var n := |bs| - 1;
      Collected(bs[..n], status, showIgnored) + Rows(bs[n].repo, bs[n].enriched, status, showIgnored)
  }

  lemma CollectedStep(bs: seq<Batch>, k: nat, status: Option<string>, showIgnored: bool)
    requires k < |bs|
    ensures Collected(bs[..k + 1], status, showIgnored) ==
            Collected(bs[..k], status, showIgnored) + Rows(bs[k].repo, bs[k].enriched, status, showIgnored)
  {
    assert bs[..k + 1][..k] == bs[..k];
  }

  /** A record is collected exactly when it is the record of a shown pull request of one of the batches. */
  lemma {:induction false} CollectedMembers(bs: seq<Batch>, status: Option<string>, showIgnored: bool, p: PRInfo)
    ensures p in Collected(bs, status, showIgnored) <==>
            exists k, e :: 0 <= k < |bs| && e in bs[k].enriched && Shown(e, status, showIgnored) && p == ToPRInfo(bs[k].repo, e)
  {
    if bs != [] {
      var n := |bs| - 1;
      var front := bs[..n];
      CollectedMembers(front, status, showIgnored, p);
      RowsMembers(bs[n].repo, bs[n].enriched, status, showIgnored, p);
      forall k | 0 <= k < n
        ensures front[k] == bs[k]
      {
      }
    }
  }

  /** With a status given, the rows are the unfiltered rows of that status: both directions. */
  lemma StatusFilterIff(bs: seq<Batch>, status: string, showIgnored: bool, p: PRInfo)
    requires status != ""
    ensures p in Collected(bs, Some(status), showIgnored) <==>
            p in Collected(bs, None, showIgnored) && StatusName(p.status) == status
  {
    CollectedMembers(bs, Some(status), showIgnored, p);
    CollectedMembers(bs, None, showIgnored, p);
    if p in Collected(bs, Some(status), showIgnored) {
      var k, e :| 0 <= k < |bs| && e in bs[k].enriched && Shown(e, Some(status), showIgnored) && p == ToPRInfo(bs[k].repo, e);
      assert Shown(e, None, showIgnored);
    }
    if p in Collected(bs, None, showIgnored) && StatusName(p.status) == status {
      var k, e :| 0 <= k < |bs| && e in bs[k].enriched && Shown(e, None, showIgnored) && p == ToPRInfo(bs[k].repo, e);
      assert Shown(e, Some(status), showIgnored);
    }
  }

  /** A status that is none of "open", "merged" and "closed" selects nothing. */
  lemma UnknownStatusSelectsNothing(bs: seq<Batch>, status: string, showIgnored: bool)
    requires status != "" && status != "open" && status != "merged" && status != "closed"
    ensures Collected(bs, Some(status), showIgnored) == []
  {
    forall e: GitHubService.EnrichedPR
      ensures !Shown(e, Some(status), showIgnored)
    {
      match StatusOf(e.pr)
      case Open =>
      case Merged =>
      case Closed =>
    }
    var c := Collected(bs, Some(status), showIgnored);
    if c != [] {
      CollectedMembers(bs, Some(status), showIgnored, c[0]);
      assert false;
    }
  }

  /**
   * Without `show_ignored` the rows are those of the pull requests not marked
   * ignored; setting it never hides a row.
   */
  lemma ShowIgnoredOnlyAdds(bs: seq<Batch>, status: Option<string>, p: PRInfo)
    ensures p in Collected(bs, status, false) ==> p in Collected(bs, status, true)
    ensures p in Collected(bs, status, false) <==>
            exists k, e :: 0 <= k < |bs| && e in bs[k].enriched && !e.ignored && Shown(e, status, true) &&
              p == ToPRInfo(bs[k].repo, e)
  {
    CollectedMembers(bs, status, false, p);
    CollectedMembers(bs, status, true, p);
    if p in Collected(bs, status, false) {
      var k, e :| 0 <= k < |bs| && e in bs[k].enriched && Shown(e, status, false) && p == ToPRInfo(bs[k].repo, e);
      assert !e.ignored && Shown(e, status, true);
    }
    if exists k, e :: 0 <= k < |bs| && e in bs[k].enriched && !e.ignored && Shown(e, status, true) && p == ToPRInfo(bs[k].repo, e) {
      var k, e :| 0 <= k < |bs| && e in bs[k].enriched && !e.ignored && Shown(e, status, true) && p == ToPRInfo(bs[k].repo, e);
      assert Shown(e, status, false);
    }
  }

  // ---------------------------------------------------------------------
  // The summary figures
  // ---------------------------------------------------------------------

  /**
   * Python's `round(count / total * 100, 1)`, taken on exact rationals, in
   * tenths: the nearest integer to 1000 * count / total, halves rounded to the
   * even neighbour; 0 when there are no records.
   */
  function HalfEvenTenths(count: nat, total: nat): (r: nat)
    ensures total == 0 ==> r == 0
    ensures total > 0 ==> 2 * total * r <= 2000 * count + total && 2000 * count <= 2 * total * r + total
    ensures total > 0 && (2000 * count) % (2 * total) == total ==> r % 2 == 0
    ensures count <= total ==> r <= 1000
  {
    if total == 0 then 0
    else
      HalfEvenFacts(count, total);
      HalfEven((1000 * count) / total, (1000 * count) % total, total)
  }

  /** The rounding step: quotient `q`, remainder `rem` of a division by `d`. */
  function HalfEven(q: nat, rem: nat, d: nat): nat
  {
    if 2 * rem < d then q else if 2 * rem > d then q + 1 else if q % 2 == 0 then q else q + 1
  }

  lemma HalfEvenFacts(count: nat, total: nat)
    requires total > 0
    ensures var r := HalfEven((1000 * count) / total, (1000 * count) % total, total);
            2 * total * r <= 2000 * count + total && 2000 * count <= 2 * total * r + total &&
            ((2000 * count) % (2 * total) == total ==> r % 2 == 0) &&
            (count <= total ==> r <= 1000)
  {
    var q, rem := (1000 * count) / total, (1000 * count) % total;
    var r := HalfEven(q, rem, total);
    assert 1000 * count == total * q + rem;
    assert 2000 * count == 2 * total * q + 2 * rem;
    ModOf(2000 * count, 2 * total, q, 2 * rem);
    if count <= total && r > 1000 {
      StatsBar.MulMonotone(1000, count, total);
      if r == q {
        StatsBar.MulMonotone(total, 1001, q);
      } else {
        assert 2 * rem >= total;
        StatsBar.MulMonotone(total, 1000, q);
      }
      assert false;
    }
  }

  /** Division with remainder has one answer. */
  lemma ModOf(x: int, d: int, q: int, m: int)
    requires d > 0 && 0 <= m < d && x == d * q + m
    ensures x % d == m
  {
    var q2, m2 := x / d, x % d;
    assert d * q + m == d * q2 + m2;
    if q < q2 {
      StatsBar.MulMonotone(d, q + 1, q2);
      assert false;
    } else if q2 < q {
      StatsBar.MulMonotone(d, q2 + 1, q);
      assert false;
    }
  }

  /** The summary of the response, on the sorted rows. */
  function ResponseStats(prs: seq<PRInfo>): (s: PRStats)
    ensures s.total == |prs|
    ensures s.reviewed == CountReviewed(prs) && s.with2Approvals == CountWith2Approvals(prs)
    ensures s.reviewed + s.notReviewed == s.total
    ensures s.total == 0 ==> s.reviewedPercent == 0 && s.with2ApprovalsPercent == 0
    ensures s.reviewedPercent <= 1000 && s.with2ApprovalsPercent <= 1000
    ensures s.reviewedPercent == HalfEvenTenths(s.reviewed, s.total)
    ensures s.with2ApprovalsPercent == HalfEvenTenths(s.with2Approvals, s.total)
  {
    var total := |prs|;
    var reviewed := CountReviewed(prs);
    var with2 := CountWith2Approvals(prs);
    PRStats(total, reviewed, total - reviewed, HalfEvenTenths(reviewed, total),
            with2, HalfEvenTenths(with2, total))
  }

  /**
   * The backend's and the browser's percentages agree except on an exact
   * half-tenth, where the browser rounds up and the backend to even.
   */
  lemma {:induction false} RoundingAgreesOffTies(count: nat, total: nat)
    requires total == 0 || (2000 * count) % (2 * total) != total
    ensures HalfEvenTenths(count, total) == StatsBar.RoundedTenths(count, total)
  {
    if total > 0 {
      var r1 := StatsBar.RoundedTenths(count, total);
      var r2 := HalfEvenTenths(count, total);
      if r1 < r2 {
        StatsBar.MulMonotone(2 * total, r1 + 1, r2);
        assert false;
      } else if r2 < r1 {
        StatsBar.MulMonotone(2 * total, r2 + 1, r1);
        assert 2000 * count == 2 * total * r2 + total;
        ModOf(2000 * count, 2 * total, r2, total);
        assert false;
      }
    }
  }

  /** One review in sixteen is 6.25%: the browser shows 6.3 and the response says 6.2. */
  lemma RoundingDiffersOnTie()
    ensures StatsBar.RoundedTenths(1, 16) == 63
    ensures HalfEvenTenths(1, 16) == 62
  {
  }

  /** The response's counts are the ones the statistics bar derives from the same rows. */
  lemma ResponseStatsMatchBar(prs: seq<PRInfo>)
    ensures var s := ResponseStats(prs);
            var b := StatsBar.BarStats(prs);
            s.total == b.total && s.reviewed == b.reviewed && s.notReviewed == b.notReviewed &&
            s.with2Approvals == b.with2Approvals
  {
  }

  // ---------------------------------------------------------------------
  // The routes
  // ---------------------------------------------------------------------

  /** The order of the response: newest first, ties in collection order. */
  function NewestFirst(prs: seq<PRInfo>): (r: seq<PRInfo>)
    ensures |r| == |prs| && multiset(r) == multiset(prs)
  {
    PRSort.SortRows(PRSort.ByCreatedAt, false, prs)
  }

  /** The inner loop of `list_prs`: the records of the shown pull requests of one repository. */
  method ShownRows(r: string, enriched: seq<GitHubService.EnrichedPR>, status: Option<string>, showIgnored: bool)
    returns (rows: seq<PRInfo>)
    ensures rows == Rows(r, enriched, status, showIgnored)
  {
    rows := [];
    for i := 0 to |enriched|
      invariant rows == Rows(r, enriched[..i], status, showIgnored)
    {
      var e := enriched[i];
      RowsStep(r, enriched, i, status, showIgnored);
      if e.ignored && !showIgnored {
        continue;
      }
      var prStatus := StatusOf(e.pr);
      if Truthy(status) && StatusName(prStatus) != status.value {
        continue;
      }
      rows := rows + [ToPRInfo(r, e)];
    }
    assert enriched[..|enriched|] == enriched;
  }

  /**
   * `list_prs` for dates `since` and `until`: every target repository's
   * listing, enriched and filtered, then sorted newest first, with its summary.
   */
  method ListPRs(gh: GitHub, repos: seq<string>, since: string, until: string, repo: Option<string>,
                 author: Option<string>, status: Option<string>, showIgnored: bool) returns (resp: PRListResponse)
    ensures resp.prs == NewestFirst(Collected(Batches(gh, TargetRepos(repo, repos), DayStart(since), DayEnd(until), author),
                                              status, showIgnored))
    ensures resp.stats == ResponseStats(resp.prs)
  {
    var lo := DayStart(since);
    var hi := DayEnd(until);
    var targets := TargetRepos(repo, repos);
    ghost var bs := Batches(gh, targets, lo, hi, author);
    var all: seq<PRInfo> := [];
    for k := 0 to |targets|
      invariant all == Collected(bs[..k], status, showIgnored)
    {
      var r := targets[k];
      var raw := GitHubService.GetPRs(gh, r, lo, hi, author);
      var enriched := GitHubService.EnrichPRs(gh, r, raw);
      assert enriched == Enriched(gh, r, raw);
      assert bs[k] == Batch(r, enriched);
      CollectedStep(bs, k, status, showIgnored);
      var rows := ShownRows(r, enriched, status, showIgnored);
      all := all + rows;
    }
    assert bs[..|targets|] == bs;
    all := NewestFirst(all);
    resp := PRListResponse(all, ResponseStats(all));
  }

  /** The response order is newest first, and rows created at the same moment keep their collection order. */
  lemma NewestFirstOrdered(c: seq<PRInfo>)
    ensures var r := NewestFirst(c);
            (forall i, j :: 0 <= i < j < |r| ==> LexCompare(r[j].createdAt, r[i].createdAt) <= 0) &&
            (forall p :: PRSort.Group(PRSort.ByCreatedAt, r, p) == PRSort.Group(PRSort.ByCreatedAt, c, p))
  {
    var r := NewestFirst(c);
    PRSort.SortRowsIsStable(PRSort.ByCreatedAt, false, c);
    forall i, j | 0 <= i < j < |r|
      ensures LexCompare(r[j].createdAt, r[i].createdAt) <= 0
    {
      assert PRSort.Directed(PRSort.ByCreatedAt, false, r[i], r[j]) <= 0;
      LexCompareAntisymmetric(r[j].createdAt, r[i].createdAt);
    }
  }

  /** Every collected row comes from one of the batches, has the requested status and counts its approvers. */
  lemma CollectedRowFacts(bs: seq<Batch>, status: Option<string>, showIgnored: bool, p: PRInfo)
    requires p in Collected(bs, status, showIgnored)
    ensures exists k :: 0 <= k < |bs| && p.repo == bs[k].repo
    ensures p.approvalCount == |p.approvedBy|
    ensures Truthy(status) ==> StatusName(p.status) == status.value
  {
    CollectedMembers(bs, status, showIgnored, p);
    var k, e :| 0 <= k < |bs| && e in bs[k].enriched && Shown(e, status, showIgnored) && p == ToPRInfo(bs[k].repo, e);
  }

  /** The batches of `list_prs` are the configured repositories, or the one requested among them. */
  lemma BatchesOfConfiguredRepos(gh: GitHub, repos: seq<string>, since: string, until: string,
                                 repo: Option<string>, author: Option<string>)
    ensures var bs := Batches(gh, TargetRepos(repo, repos), since, until, author);
            forall k :: 0 <= k < |bs| ==> bs[k].repo in repos
  {
  }

  /** `list_authors`: the sorted distinct authors over all configured repositories and the days given. */
  method ListAuthors(gh: GitHub, repos: seq<string>, since: string, until: string) returns (authors: seq<string>)
    ensures forall u :: u in authors <==>
              exists k, pr :: 0 <= k < |repos| &&
                pr in GitHubService.ListedPRs(gh, repos[k], DayStart(since), DayEnd(until), None) && pr.login == u
    ensures GitHubService.StrictlyAscending(authors)
  {
    authors := GitHubService.GetAuthors(gh, repos, DayStart(since), DayEnd(until));
    ghost var ls := GitHubService.Listings(gh, repos, DayStart(since), DayEnd(until));
    forall u
      ensures u in authors <==>
              exists k, pr :: 0 <= k < |repos| &&
                pr in GitHubService.ListedPRs(gh, repos[k], DayStart(since), DayEnd(until), None) && pr.login == u
    {
      GitHubService.LoginsOfMembers(ls, u);
    }
  }
}
