/**
 * The reductions the GitHub service performs over what GitHub serves: the
 * date-window scan of a pull listing with its early stop, the author filter,
 * the comment scan for the AI-review and ignore markers, the "last verdict
 * wins" review reduction, the reviewer merge of the enrichment step and the
 * sorted author list. Every paginated call is a given sequence of pages
 * (`GitHubData`), and each loop is proved against the function of the items
 * it is served.
 */
module GitHubService {
  import opened Wrappers
  import opened Strings
  import opened GitHubData
  import StableSort

  // ---------------------------------------------------------------------
  // The date-window scan of `_fetch_prs`
  // ---------------------------------------------------------------------

  const Dependabot: string := "dependabot[bot]"

  /**
   * Creation times are GitHub's fixed-width UTC text ("YYYY-MM-DDTHH:MM:SSZ");
   * so are the window bounds, so text order is time order.
   */
  predicate After(pr: RawPR, until: string)
  {
    LexCompare(pr.createdAt, until) > 0
  }

  predicate Before(pr: RawPR, since: string)
  {
    LexCompare(pr.createdAt, since) < 0
  }

  /** The pull request that ends the whole scan. */
  predicate Stops(pr: RawPR, since: string, until: string)
  {
    !After(pr, until) && Before(pr, since)
  }

  /** A pull request the scan appends to its results. */
  predicate Kept(pr: RawPR, since: string, until: string)
  {
    !After(pr, until) && !Before(pr, since) && pr.login != Dependabot
  }

  /** What the scan returns from the stream `s` of served pull requests. */
  function Scan(s: seq<RawPR>, since: string, until: string): seq<RawPR>
  {
    if s == [] then []
    else if After(s[0], until) then Scan(s[1..], since, until)
    else if Before(s[0], since) then []
    else if s[0].login == Dependabot then Scan(s[1..], since, until)
    else [s[0]] + Scan(s[1..], since, until)
  }

  /** The position of the first pull request that stops the scan, or `|s|`. */
  function StopIndex(s: seq<RawPR>, since: string, until: string): (k: nat)
    ensures k <= |s|
    ensures forall i :: 0 <= i < k ==> !Stops(s[i], since, until)
    ensures k < |s| ==> Stops(s[k], since, until)
  {
    if s == [] || Stops(s[0], since, until) then 0 else 1 + StopIndex(s[1..], since, until)
  }

  /** The kept pull requests of `s`, in order: the reference the scan is measured against. */
  function KeptOf(s: seq<RawPR>, since: string, until: string): (r: seq<RawPR>)
    ensures forall pr :: pr in r <==> pr in s && Kept(pr, since, until)
  {
    if s == [] then []
    else (if Kept(s[0], since, until) then [s[0]] else []) + KeptOf(s[1..], since, until)
  }

  /** The scan keeps, in order, the kept pull requests in front of the first stopper. */
  lemma {:induction false} ScanIsKeptBeforeStop(s: seq<RawPR>, since: string, until: string)
    ensures Scan(s, since, until) == KeptOf(s[..StopIndex(s, since, until)], since, until)
  {
    if s != [] && !Stops(s[0], since, until) {
      ScanIsKeptBeforeStop(s[1..], since, until);
      var k := StopIndex(s, since, until);
      assert s[..k][1..] == s[1..][..k - 1];
    }
  }

  /** Soundness and completeness of the scan, in terms of positions of `s`. */
  lemma ScanMembers(s: seq<RawPR>, since: string, until: string, pr: RawPR)
    ensures pr in Scan(s, since, until) <==>
            Kept(pr, since, until) && pr in s[..StopIndex(s, since, until)]
  {
    ScanIsKeptBeforeStop(s, since, until);
  }

  /** The creation times of `s` never increase: GitHub's `sort=created&direction=desc`. */
  ghost predicate NewestFirst(s: seq<RawPR>)
  {
    forall i, j :: 0 <= i < j < |s| ==> LexCompare(s[j].createdAt, s[i].createdAt) <= 0
  }

  lemma {:induction false} NoneKept(s: seq<RawPR>, since: string, until: string)
    requires forall i :: 0 <= i < |s| ==> Before(s[i], since)
    ensures KeptOf(s, since, until) == []
  {
    if s != [] {
      NoneKept(s[1..], since, until);
    }
  }

  /**
   * On a newest-first listing the early stop loses nothing: everything after
   * the first pull request created before `since` is older still.
   */
  lemma {:induction false} EarlyStopLosesNothing(s: seq<RawPR>, since: string, until: string)
    requires NewestFirst(s)
    ensures Scan(s, since, until) == KeptOf(s, since, until)
  {
    if s != [] {
      assert NewestFirst(s[1..]) by {
        forall i, j | 0 <= i < j < |s[1..]| ensures LexCompare(s[1..][j].createdAt, s[1..][i].createdAt) <= 0 {
          assert s[1..][i] == s[i + 1] && s[1..][j] == s[j + 1];
        }
      }
      if Stops(s[0], since, until) {
        forall i | 0 <= i < |s[1..]| ensures Before(s[1..][i], since) {
          assert s[1..][i] == s[i + 1];
          assert LexCompare(s[i + 1].createdAt, s[0].createdAt) <= 0;
          LexCompareTransitive(s[i + 1].createdAt, s[0].createdAt, since);
          LexCompareZero(s[i + 1].createdAt, since);
          LexCompareAntisymmetric(s[0].createdAt, since);
        }
        NoneKept(s[1..], since, until);
      } else {
        EarlyStopLosesNothing(s[1..], since, until);
      }
    }
  }

  /** A page without a pull request that stops the scan. */
  predicate NoStopper(page: seq<RawPR>, since: string, until: string)
  {
    page == [] || (!Stops(page[0], since, until) && NoStopper(page[1..], since, until))
  }

  lemma {:induction false} NoStopperAt(page: seq<RawPR>, since: string, until: string)
    ensures NoStopper(page, since, until) <==> forall k :: 0 <= k < |page| ==> !Stops(page[k], since, until)
  {
    if page != [] {
      NoStopperAt(page[1..], since, until);
      assert forall k :: 0 < k < |page| ==> page[k] == page[1..][k - 1];
    }
  }

  lemma {:induction false} NoStopperAppend(a: seq<RawPR>, b: seq<RawPR>, since: string, until: string)
    ensures NoStopper(a + b, since, until) <==> NoStopper(a, since, until) && NoStopper(b, since, until)
  {
    if a != [] {
      assert (a + b)[0] == a[0] && (a + b)[1..] == a[1..] + b;
      NoStopperAppend(a[1..], b, since, until);
    } else {
      assert a + b == b;
    }
  }

  /** A page after which the next one is requested. */
  predicate Continues(page: seq<RawPR>, since: string, until: string)
  {
    AsksForMore(page) && NoStopper(page, since, until)
  }

  /** Scanning a concatenation scans the second part only if the first has no stopper. */
  lemma {:induction false} ScanAppend(a: seq<RawPR>, b: seq<RawPR>, since: string, until: string)
    ensures Scan(a + b, since, until) ==
            Scan(a, since, until) + (if NoStopper(a, since, until) then Scan(b, since, until) else [])
  {
    if a != [] {
      assert (a + b)[0] == a[0] && (a + b)[1..] == a[1..] + b;
      ScanAppend(a[1..], b, since, until);
    } else {
      assert a + b == b;
    }
  }

  /** The step of the inner loop: one more pull request of the page. */
  lemma ScanStep(a: seq<RawPR>, pr: RawPR, since: string, until: string)
    requires NoStopper(a, since, until)
    ensures Scan(a + [pr], since, until) ==
            Scan(a, since, until) + (if After(pr, until) || Before(pr, since) || pr.login == Dependabot then [] else [pr])
    ensures NoStopper(a + [pr], since, until) <==> !Stops(pr, since, until)
  {
    ScanAppend(a, [pr], since, until);
    NoStopperAppend(a, [pr], since, until);
    assert [pr][1..] == [];
  }

  /**
   * The `for pr in data` loop over one page: the pull requests it appends and
   * whether it met one that ends the whole scan.
   */
  method ScanPage(data: seq<RawPR>, since: string, until: string) returns (kept: seq<RawPR>, stopped: bool)
    ensures kept == Scan(data, since, until)
    ensures stopped <==> !NoStopper(data, since, until)
  {
    kept := [];
    var j := 0;
    ghost var read: seq<RawPR> := [];
    while j < |data|
      invariant 0 <= j <= |data|
      invariant read == data[..j]
      invariant NoStopper(read, since, until)
      invariant kept == Scan(read, since, until)
    {
      var pr := data[j];
      ScanStep(read, pr, since, until);
      ReadOneMore([], data, j);
      assert [] + data[..j] == data[..j] && [] + data[..j + 1] == data[..j + 1];
      if LexCompare(pr.createdAt, until) > 0 {
        read := read + [pr];
        j := j + 1;
        continue;
      }
      if LexCompare(pr.createdAt, since) < 0 {
        StopperEndsScan(read, pr, data[j + 1..], since, until);
        assert read + [pr] + data[j + 1..] == data;
        return kept, true;
      }
      if pr.login == Dependabot {
        read := read + [pr];
        j := j + 1;
        continue;
      }
      kept := kept + [pr];
      read := read + [pr];
      j := j + 1;
    }
    assert data[..j] == data;
    stopped := false;
  }

  /** A stopper after `read` ends the scan: nothing after it counts, and the stream has a stopper. */
  lemma StopperEndsScan(read: seq<RawPR>, pr: RawPR, rest: seq<RawPR>, since: string, until: string)
    requires NoStopper(read, since, until) && Stops(pr, since, until)
    ensures Scan(read + [pr] + rest, since, until) == Scan(read, since, until)
    ensures !NoStopper(read + [pr] + rest, since, until)
  {
    ScanStep(read, pr, since, until);
    ScanAppend(read + [pr], rest, since, until);
    NoStopperAppend(read + [pr], rest, since, until);
    assert Scan(read, since, until) + [] == Scan(read, since, until);
  }

  /** What the scan of the pages served from page `i + 1` on is made of. */
  lemma FetchStep(pages: seq<seq<RawPR>>, i: nat, since: string, until: string)
    ensures Scan(ServedFrom(pages, i), since, until) ==
            Scan(PageAt(pages, i), since, until) +
            (if Continues(PageAt(pages, i), since, until) then Scan(ServedFrom(pages, i + 1), since, until) else [])
  {
    ServedFromUnfold(pages, i);
    var tail := if AsksForMore(PageAt(pages, i)) then ServedFrom(pages, i + 1) else [];
    ScanAppend(PageAt(pages, i), tail, since, until);
  }

  /**
   * How many pages the loop asks for from page `i + 1` on: one more for each
   * full page without a stopper.
   */
  function PagesAskedFrom(pages: seq<seq<RawPR>>, i: nat, since: string, until: string): (n: nat)
    ensures n >= 1
    decreases |pages| - i
  {
    if i < |pages| && Continues(pages[i], since, until) then 1 + PagesAskedFrom(pages, i + 1, since, until) else 1
  }

  /**
   * The pages asked for are full pages without a stopper, up to the first
   * one that is empty, short or has a stopper, which is the last one asked for.
   */
  lemma {:induction false} PagesAskedAreUpToFirstFinal(pages: seq<seq<RawPR>>, i: nat, since: string, until: string)
    ensures forall k :: i <= k < i + PagesAskedFrom(pages, i, since, until) - 1 ==> Continues(PageAt(pages, k), since, until)
    ensures !Continues(PageAt(pages, i + PagesAskedFrom(pages, i, since, until) - 1), since, until)
    decreases |pages| - i
  {
    if i < |pages| && Continues(pages[i], since, until) {
      PagesAskedAreUpToFirstFinal(pages, i + 1, since, until);
    }
  }

  /**
   * `_fetch_prs`: pages are requested from the first on; the results are the
   * scan of what is served, and `requested` is how many pages were asked for.
   */
  method FetchPRs(pages: seq<seq<RawPR>>, since: string, until: string) returns (results: seq<RawPR>, requested: nat)
    ensures results == Scan(Served(pages), since, until)
    ensures requested == PagesAskedFrom(pages, 0, since, until)
  {
    results := [];
    var page: nat := 0;
    while true
      invariant page <= |pages|
      invariant FetchState(pages, page, results, since, until)
      decreases |pages| - page
    {
      var data := PageAt(pages, page);
      if data == [] {
        FetchFinal(pages, page, results, since, until);
        assert results + [] == results;
        break;
      }
      var kept, stopped := ScanPage(data, since, until);
      if stopped || |data| < PerPage {
        FetchFinal(pages, page, results, since, until);
        results := results + kept;
        break;
      }
      FetchContinue(pages, page, results, since, until);
      results := results + kept;
      page := page + 1;
    }
    requested := page + 1;
  }

  /** What the page loop keeps: the results so far and the pages asked so far, against the whole scan. */
  predicate FetchState(pages: seq<seq<RawPR>>, page: nat, results: seq<RawPR>, since: string, until: string)
  {
    PagesAskedFrom(pages, 0, since, until) == page + PagesAskedFrom(pages, page, since, until) &&
    Scan(Served(pages), since, until) == results + Scan(ServedFrom(pages, page), since, until)
  }

  /** A full page without a stopper: its kept pull requests are added and the next page is asked for. */
  lemma FetchContinue(pages: seq<seq<RawPR>>, page: nat, results: seq<RawPR>, since: string, until: string)
    requires FetchState(pages, page, results, since, until)
    requires Continues(PageAt(pages, page), since, until)
    ensures page < |pages|
    ensures FetchState(pages, page + 1, results + Scan(PageAt(pages, page), since, until), since, until)
  {
    FetchStep(pages, page, since, until);
  }

  /** An empty page, a short page or a stopper: the page's kept pull requests complete the results. */
  lemma FetchFinal(pages: seq<seq<RawPR>>, page: nat, results: seq<RawPR>, since: string, until: string)
    requires FetchState(pages, page, results, since, until)
    requires !Continues(PageAt(pages, page), since, until)
    ensures Scan(Served(pages), since, until) == results + Scan(PageAt(pages, page), since, until)
    ensures PagesAskedFrom(pages, 0, since, until) == page + 1
  {
    FetchStep(pages, page, since, until);
    assert Scan(PageAt(pages, page), since, until) + [] == Scan(PageAt(pages, page), since, until);
  }

  // ---------------------------------------------------------------------
  // `get_prs`: open results, then closed ones, then the author filter
  // ---------------------------------------------------------------------

  /** The case-insensitive login comparison of the author filter. */
  predicate ByAuthor(pr: RawPR, author: string)
  {
    Lower(pr.login) == Lower(author)
  }

  function OfAuthor(s: seq<RawPR>, author: string): (r: seq<RawPR>)
    ensures forall pr :: pr in r <==> pr in s && ByAuthor(pr, author)
  {
    if s == [] then []
    else (if ByAuthor(s[0], author) then [s[0]] else []) + OfAuthor(s[1..], author)
  }

  /** The window scans of both states of `repo`, open first. */
  function WindowPRs(gh: GitHub, repo: string, since: string, until: string): seq<RawPR>
  {
    Scan(Served(PullPages(gh, repo, "open")), since, until) + Scan(Served(PullPages(gh, repo, "closed")), since, until)
  }

  function ListedPRs(gh: GitHub, repo: string, since: string, until: string, author: Option<string>): seq<RawPR>
  {
    var all := WindowPRs(gh, repo, since, until);
    if Truthy(author) then OfAuthor(all, author.value) else all
  }

  method GetPRs(gh: GitHub, repo: string, since: string, until: string, author: Option<string>) returns (prs: seq<RawPR>)
    ensures prs == ListedPRs(gh, repo, since, until, author)
  {
    var openPRs, _ := FetchPRs(PullPages(gh, repo, "open"), since, until);
    var closedPRs, _ := FetchPRs(PullPages(gh, repo, "closed"), since, until);
    prs := openPRs + closedPRs;
    if Truthy(author) {
      prs := OfAuthor(prs, author.value);
    }
  }

  /**
   * A pull request is listed exactly when one of the two scans keeps it and,
   * under a non-empty author, its login matches that author ignoring case.
   */
  lemma ListedMembers(gh: GitHub, repo: string, since: string, until: string, author: Option<string>, pr: RawPR)
    ensures pr in ListedPRs(gh, repo, since, until, author) <==>
            (pr in Scan(Served(PullPages(gh, repo, "open")), since, until) ||
             pr in Scan(Served(PullPages(gh, repo, "closed")), since, until)) &&
            (Truthy(author) ==> ByAuthor(pr, author.value))
  {
  }

  /** Without an author the open-state results come first, then the closed ones. */
  lemma OpenResultsFirst(gh: GitHub, repo: string, since: string, until: string)
    ensures var open := Scan(Served(PullPages(gh, repo, "open")), since, until);
            var r := ListedPRs(gh, repo, since, until, None);
            |open| <= |r| && r[..|open|] == open
  {
  }

  // ---------------------------------------------------------------------
  // `check_pr_comments`
  // ---------------------------------------------------------------------

  const ReviewBot: string := "github-actions[bot]"
  const ReviewMarker: string := "Code Review"
  const IgnoreMarker: string := "#ignore-tracker"

  predicate IsAIReview(c: Comment)
  {
    c.login == ReviewBot && Contains(c.body, ReviewMarker)
  }

  /** The ignore marker counts from any author. */
  predicate IsIgnoreMark(c: Comment)
  {
    Contains(c.body, IgnoreMarker)
  }

  predicate AIReviewed(s: seq<Comment>)
  {
    exists i :: 0 <= i < |s| && IsAIReview(s[i])
  }

  predicate IgnoreMarked(s: seq<Comment>)
  {
    exists i :: 0 <= i < |s| && IsIgnoreMark(s[i])
  }

  lemma CommentsAppend(a: seq<Comment>, b: seq<Comment>)
    ensures AIReviewed(a + b) <==> AIReviewed(a) || AIReviewed(b)
    ensures IgnoreMarked(a + b) <==> IgnoreMarked(a) || IgnoreMarked(b)
  {
    var t := a + b;
    if AIReviewed(a) {
      var i :| 0 <= i < |a| && IsAIReview(a[i]);
      assert t[i] == a[i];
    }
    if AIReviewed(b) {
      var i :| 0 <= i < |b| && IsAIReview(b[i]);
      assert t[|a| + i] == b[i];
    }
    if IgnoreMarked(a) {
      var i :| 0 <= i < |a| && IsIgnoreMark(a[i]);
      assert t[i] == a[i];
    }
    if IgnoreMarked(b) {
      var i :| 0 <= i < |b| && IsIgnoreMark(b[i]);
      assert t[|a| + i] == b[i];
    }
    if AIReviewed(t) {
      var i :| 0 <= i < |t| && IsAIReview(t[i]);
      if i < |a| {
        assert t[i] == a[i];
      } else {
        assert t[i] == b[i - |a|];
      }
    }
    if IgnoreMarked(t) {
      var i :| 0 <= i < |t| && IsIgnoreMark(t[i]);
      if i < |a| {
        assert t[i] == a[i];
      } else {
        assert t[i] == b[i - |a|];
      }
    }
  }

  /** The `for comment in comments` loop over one page, on the flags so far. */
  method ScanComments(comments: seq<Comment>, aiReviewed0: bool, ignored0: bool) returns (aiReviewed: bool, ignored: bool)
    ensures aiReviewed == (aiReviewed0 || AIReviewed(comments))
    ensures ignored == (ignored0 || IgnoreMarked(comments))
  {
    aiReviewed, ignored := aiReviewed0, ignored0;
    var j := 0;
    while j < |comments|
      invariant 0 <= j <= |comments|
      invariant aiReviewed == (aiReviewed0 || AIReviewed(comments[..j]))
      invariant ignored == (ignored0 || IgnoreMarked(comments[..j]))
    {
      var comment := comments[j];
      CommentsAppend(comments[..j], [comment]);
      assert comments[..j + 1] == comments[..j] + [comment];
      assert [comment][0] == comment;
      if comment.login == ReviewBot && Contains(comment.body, ReviewMarker) {
        aiReviewed := true;
      }
      if Contains(comment.body, IgnoreMarker) {
        ignored := true;
      }
      j := j + 1;
    }
    assert comments[..j] == comments;
  }

  /** Both flags over every comment served, all pages read in order. */
  method CheckPRComments(pages: seq<seq<Comment>>) returns (aiReviewed: bool, ignored: bool)
    ensures aiReviewed == AIReviewed(Served(pages))
    ensures ignored == IgnoreMarked(Served(pages))
  {
    aiReviewed, ignored := false, false;
    ghost var seen: seq<Comment> := [];
    var page: nat := 0;
    while true
      invariant page <= |pages|
      invariant seen + ServedFrom(pages, page) == Served(pages)
      invariant aiReviewed == AIReviewed(seen) && ignored == IgnoreMarked(seen)
      decreases |pages| - page
    {
      var comments := PageAt(pages, page);
      ServedAdvance(pages, page, seen);
      CommentsAppend(seen, comments);
      if comments == [] {
        assert seen + comments == seen;
        break;
      }
      aiReviewed, ignored := ScanComments(comments, aiReviewed, ignored);
      seen := seen + comments;
      if |comments| < PerPage {
        break;
      }
      page := page + 1;
    }
  }

  /** The marker counts only from the review bot; the ignore marker from anyone. */
  lemma CommentExamples()
    ensures AIReviewed([Comment(ReviewBot, "## Code Review")])
    ensures !AIReviewed([Comment("amy", "Code Review")])
    ensures IgnoreMarked([Comment("amy", "#ignore-tracker")])
  {
    var bot := Comment(ReviewBot, "## Code Review");
    assert OccursAt(bot.body, ReviewMarker, 3);
    ContainsAt(bot.body, ReviewMarker);
    assert [bot][0] == bot;
    var mark := Comment("amy", "#ignore-tracker");
    assert OccursAt(mark.body, IgnoreMarker, 0);
    ContainsAt(mark.body, IgnoreMarker);
    assert [mark][0] == mark;
  }

  // ---------------------------------------------------------------------
  // `get_review_details`
  // ---------------------------------------------------------------------

  predicate IsHuman(login: string)
  {
    login != "" && !EndsWith(login, "[bot]")
  }

  /** The review states that can change whether a reviewer approves. */
  predicate IsVerdict(state: string)
  {
    state == "APPROVED" || state == "CHANGES_REQUESTED" || state == "DISMISSED"
  }

  predicate Counts(r: Review)
  {
    IsHuman(r.login) && IsVerdict(r.state)
  }

  /** The human logins of `s`, one per review, in order. */
  function HumanLogins(s: seq<Review>): seq<string>
  {
    if s == [] then []
    else HumanLogins(s[..|s| - 1]) + (if IsHuman(s[|s| - 1].login) then [s[|s| - 1].login] else [])
  }

  /** The logins of the reviews that carry a verdict, one per review, in order. */
  function VerdictLogins(s: seq<Review>): seq<string>
  {
    if s == [] then []
    else VerdictLogins(s[..|s| - 1]) + (if Counts(s[|s| - 1]) then [s[|s| - 1].login] else [])
  }

  /** The state of `u`'s last review in `s` that carries a verdict. */
  function LastVerdict(s: seq<Review>, u: string): Option<string>
  {
    if s == [] then None
    else if Counts(s[|s| - 1]) && s[|s| - 1].login == u then Some(s[|s| - 1].state)
    else LastVerdict(s[..|s| - 1], u)
  }

  /** Those of `us` whose last verdict in `s` is `v`, in the order of `us`. */
  function WithVerdict(us: seq<string>, s: seq<Review>, v: string): (r: seq<string>)
    ensures forall u :: u in r <==> u in us && LastVerdict(s, u) == Some(v)
  {
    if us == [] then []
    else (if LastVerdict(s, us[0]) == Some(v) then [us[0]] else []) + WithVerdict(us[1..], s, v)
  }

  /** `reviewers`: every human who left a review, each once, in first-review order. */
  function ReviewersOf(s: seq<Review>): seq<string>
  {
    Dedup(HumanLogins(s))
  }

  /** `approved_by`: in first-verdict order, those whose last verdict is an approval. */
  function ApproversOf(s: seq<Review>): seq<string>
  {
    WithVerdict(Dedup(VerdictLogins(s)), s, "APPROVED")
  }

  /** What one more review does to each of the reductions. */
  lemma ReviewStep(s: seq<Review>, r: Review)
    ensures HumanLogins(s + [r]) == HumanLogins(s) + (if IsHuman(r.login) then [r.login] else [])
    ensures VerdictLogins(s + [r]) == VerdictLogins(s) + (if Counts(r) then [r.login] else [])
  {
    assert (s + [r])[..|s|] == s;
  }

  lemma LastVerdictStep(s: seq<Review>, r: Review, u: string)
    ensures LastVerdict(s + [r], u) == if Counts(r) && r.login == u then Some(r.state) else LastVerdict(s, u)
  {
    assert (s + [r])[..|s|] == s;
  }

  lemma ReviewersStep(s: seq<Review>, r: Review)
    ensures ReviewersOf(s + [r]) ==
            if IsHuman(r.login) && r.login !in ReviewersOf(s) then ReviewersOf(s) + [r.login] else ReviewersOf(s)
  {
    ReviewStep(s, r);
    if IsHuman(r.login) {
      DedupStep(HumanLogins(s), r.login);
    } else {
      assert HumanLogins(s + [r]) == HumanLogins(s);
    }
  }

  lemma VerdictOrderStep(s: seq<Review>, r: Review)
    ensures Dedup(VerdictLogins(s + [r])) ==
            if Counts(r) && r.login !in VerdictLogins(s) then Dedup(VerdictLogins(s)) + [r.login] else Dedup(VerdictLogins(s))
  {
    ReviewStep(s, r);
    if Counts(r) {
      DedupStep(VerdictLogins(s), r.login);
    } else {
      assert VerdictLogins(s + [r]) == VerdictLogins(s);
    }
  }

  lemma DedupStep(x: seq<string>, y: string)
    ensures Dedup(x + [y]) == if y in x then Dedup(x) else Dedup(x) + [y]
  {
    assert (x + [y])[..|x|] == x;
  }

  /** The loop state of `get_review_details` after the reviews `seen`. */
  ghost predicate DetailsState(seen: seq<Review>, reviewers: seq<string>, order: seq<string>, latest: map<string, string>)
  {
    && reviewers == ReviewersOf(seen)
    && order == Dedup(VerdictLogins(seen))
    && (forall u :: u in latest <==> u in order)
    && (forall u :: u in latest ==> LastVerdict(seen, u) == Some(latest[u]))
  }

  /** The updates the loop body makes for one review. */
  function NextReviewers(reviewers: seq<string>, r: Review): seq<string>
  {
    if IsHuman(r.login) && r.login !in reviewers then reviewers + [r.login] else reviewers
  }

  function NextOrder(order: seq<string>, latest: map<string, string>, r: Review): seq<string>
  {
    if Counts(r) && r.login !in latest then order + [r.login] else order
  }

  function NextLatest(latest: map<string, string>, r: Review): map<string, string>
  {
    if Counts(r) then latest[r.login := r.state] else latest
  }

  lemma DetailsStep(seen: seq<Review>, reviewers: seq<string>, order: seq<string>, latest: map<string, string>, r: Review)
    requires DetailsState(seen, reviewers, order, latest)
    ensures DetailsState(seen + [r], NextReviewers(reviewers, r), NextOrder(order, latest, r), NextLatest(latest, r))
  {
    var t := seen + [r];
    ReviewersStep(seen, r);
    VerdictOrderStep(seen, r);
    assert r.login in latest <==> r.login in VerdictLogins(seen);
    var order' := NextOrder(order, latest, r);
    var latest' := NextLatest(latest, r);
    forall u ensures u in latest' <==> u in order' {
    }
    forall u | u in latest' ensures LastVerdict(t, u) == Some(latest'[u]) {
      LastVerdictStep(seen, r, u);
      if !(Counts(r) && u == r.login) {
        assert u in latest && latest'[u] == latest[u];
      }
    }
  }

  /**
   * The loop state of `get_review_details` after the reviews `s`, as a left
   * fold of the loop body: (`reviewers` keys, `latest_state` keys in
   * insertion order, `latest_state`).
   */
  function DetailsOf(s: seq<Review>): (seq<string>, seq<string>, map<string, string>)
  {
    if s == [] then ([], [], map[])
    else
      var d := DetailsOf(s[..|s| - 1]);
      var r := s[|s| - 1];
      (NextReviewers(d.0, r), NextOrder(d.1, d.2, r), NextLatest(d.2, r))
  }

  lemma DetailsOfStep(s: seq<Review>, r: Review)
    ensures var d := DetailsOf(s);
            DetailsOf(s + [r]) == (NextReviewers(d.0, r), NextOrder(d.1, d.2, r), NextLatest(d.2, r))
  {
    assert (s + [r])[..|s|] == s;
  }

  /** The fold keeps the loop state: reviewers, verdict order and last verdicts. */
  lemma {:induction false} DetailsOfState(s: seq<Review>)
    ensures DetailsState(s, DetailsOf(s).0, DetailsOf(s).1, DetailsOf(s).2)
  {
    if s != [] {
      var s' := s[..|s| - 1];
      DetailsOfState(s');
      DetailsStep(s', DetailsOf(s').0, DetailsOf(s').1, DetailsOf(s').2, s[|s| - 1]);
      assert s == s' + [s[|s| - 1]];
    }
  }

  /** The `for review in reviews` loop over one page, on the state so far. */
  method ReviewPage(reviews: seq<Review>, ghost seen: seq<Review>,
                    reviewers0: seq<string>, order0: seq<string>, latest0: map<string, string>)
    returns (reviewers: seq<string>, order: seq<string>, latest: map<string, string>)
    requires (reviewers0, order0, latest0) == DetailsOf(seen)
    ensures (reviewers, order, latest) == DetailsOf(seen + reviews)
  {
    reviewers, order, latest := reviewers0, order0, latest0;
    var j := 0;
    ghost var read := seen;
    assert seen + reviews[..j] == seen;
    while j < |reviews|
      invariant 0 <= j <= |reviews|
      invariant read == seen + reviews[..j]
      invariant (reviewers, order, latest) == DetailsOf(read)
    {
      DetailsOfStep(read, reviews[j]);
      ReadOneMore(seen, reviews, j);
      var login, state := reviews[j].login, reviews[j].state;
      if IsHuman(login) {
        if login !in reviewers {
          reviewers := reviewers + [login];
        }
        if IsVerdict(state) {
          if login !in latest {
            order := order + [login];
          }
          latest := latest[login := state];
        }
      }
      read := read + [reviews[j]];
      j := j + 1;
    }
    assert reviews[..j] == reviews;
  }

  /** `[u for u, s in latest_state.items() if s == "APPROVED"]`, keys in insertion order. */
  function ApprovedKeys(order: seq<string>, latest: map<string, string>): seq<string>
    requires forall u :: u in order ==> u in latest
  {
    if order == [] then []
    else (if latest[order[0]] == "APPROVED" then [order[0]] else []) + ApprovedKeys(order[1..], latest)
  }

  lemma {:induction false} ApprovedKeysAreApprovers(seen: seq<Review>, order: seq<string>, latest: map<string, string>)
    requires forall u :: u in order ==> u in latest && LastVerdict(seen, u) == Some(latest[u])
    ensures ApprovedKeys(order, latest) == WithVerdict(order, seen, "APPROVED")
  {
    if order != [] {
      ApprovedKeysAreApprovers(seen, order[1..], latest);
    }
  }

  method ReviewDetails(pages: seq<seq<Review>>) returns (reviewers: seq<string>, approvedBy: seq<string>)
    ensures reviewers == ReviewersOf(Served(pages))
    ensures approvedBy == ApproversOf(Served(pages))
  {
    reviewers := [];
    var order: seq<string> := [];
    var latest: map<string, string> := map[];
    ghost var seen: seq<Review> := [];
    var page: nat := 0;
    while true
      invariant page <= |pages|
      invariant seen + ServedFrom(pages, page) == Served(pages)
      invariant (reviewers, order, latest) == DetailsOf(seen)
      decreases |pages| - page
    {
      var reviews := PageAt(pages, page);
      ServedAdvance(pages, page, seen);
      if reviews == [] {
        assert seen + reviews == seen;
        break;
      }
      reviewers, order, latest := ReviewPage(reviews, seen, reviewers, order, latest);
      seen := seen + reviews;
      if |reviews| < PerPage {
        break;
      }
      page := page + 1;
    }
    DetailsOfState(seen);
    ApprovedKeysAreApprovers(seen, order, latest);
    approvedBy := ApprovedKeys(order, latest);
  }

  lemma {:induction false} VerdictLoginsHaveVerdict(s: seq<Review>, u: string)
    ensures u in VerdictLogins(s) <==> LastVerdict(s, u).Some?
  {
    if s != [] {
      VerdictLoginsHaveVerdict(s[..|s| - 1], u);
    }
  }

  lemma {:induction false} VerdictLoginsAreHuman(s: seq<Review>)
    ensures forall u :: u in VerdictLogins(s) ==> u in HumanLogins(s)
  {
    if s != [] {
      VerdictLoginsAreHuman(s[..|s| - 1]);
    }
  }

  /** A login is a reviewer exactly when some review in `s` is by that human. */
  lemma {:induction false} ReviewersMembers(s: seq<Review>, u: string)
    ensures u in ReviewersOf(s) <==> IsHuman(u) && exists i :: 0 <= i < |s| && s[i].login == u
  {
    if s != [] {
      var s' := s[..|s| - 1];
      ReviewersMembers(s', u);
      if exists i :: 0 <= i < |s'| && s'[i].login == u {
        var i :| 0 <= i < |s'| && s'[i].login == u;
        assert s[i] == s'[i];
      }
      if exists i :: 0 <= i < |s| && s[i].login == u {
        var i :| 0 <= i < |s| && s[i].login == u;
        if i < |s'| {
          assert s'[i] == s[i];
        }
      }
    }
  }

  /** No reviewer is listed twice and no bot or empty login is listed. */
  lemma ReviewersAreDistinctHumans(s: seq<Review>)
    ensures NoDuplicates(ReviewersOf(s))
    ensures forall u :: u in ReviewersOf(s) ==> IsHuman(u)
  {
    forall u | u in ReviewersOf(s) ensures IsHuman(u) {
      ReviewersMembers(s, u);
    }
  }

  /** Reviewers are listed in the order of their first reviews. */
  lemma ReviewersInFirstReviewOrder(s: seq<Review>)
    ensures forall i, j :: 0 <= i < j < |ReviewersOf(s)| ==>
              FirstIndex(HumanLogins(s), ReviewersOf(s)[i]) < FirstIndex(HumanLogins(s), ReviewersOf(s)[j])
  {
    DedupFirstAppearanceOrder(HumanLogins(s));
  }

  /** A reviewer approves exactly when their last verdict is an approval. */
  lemma ApproverIff(s: seq<Review>, u: string)
    ensures u in ApproversOf(s) <==> LastVerdict(s, u) == Some("APPROVED")
  {
    VerdictLoginsHaveVerdict(s, u);
  }

  /** The tail of a list in first-occurrence order is in that order too. */
  lemma FirstOrderedTail(us: seq<string>, t: seq<string>)
    requires us != [] && FirstOrdered(us, t)
    ensures FirstOrdered(us[1..], t)
    ensures us[0] in t
    ensures forall x :: x in us[1..] ==> us[0] in t && x in t && FirstIndex(t, us[0]) < FirstIndex(t, x)
  {
    var tail := us[1..];
    forall i | 0 <= i < |tail| ensures tail[i] in t {
      assert tail[i] == us[i + 1];
    }
    forall i, j | 0 <= i < j < |tail|
      ensures tail[i] in t && tail[j] in t && FirstIndex(t, tail[i]) < FirstIndex(t, tail[j])
    {
      assert tail[i] == us[i + 1] && tail[j] == us[j + 1];
    }
    forall x | x in tail ensures us[0] in t && x in t && FirstIndex(t, us[0]) < FirstIndex(t, x) {
      var k :| 0 <= k < |tail| && tail[k] == x;
      assert us[k + 1] == x;
    }
  }

  /** A head that occurs first before every element of a list in first-occurrence order keeps it so. */
  lemma FirstOrderedCons(h: string, rest: seq<string>, t: seq<string>)
    requires FirstOrdered(rest, t) && h in t
    requires forall x :: x in rest ==> x in t && FirstIndex(t, h) < FirstIndex(t, x)
    ensures FirstOrdered([h] + rest, t)
  {
    var r := [h] + rest;
    assert r[0] == h;
    assert forall k :: 0 < k < |r| ==> r[k] == rest[k - 1];
    forall i | 0 <= i < |r| ensures r[i] in t {
      if i > 0 {
        assert rest[i - 1] in t;
      }
    }
    forall i, j | 0 <= i < j < |r|
      ensures r[i] in t && r[j] in t && FirstIndex(t, r[i]) < FirstIndex(t, r[j])
    {
      var y := rest[j - 1];
      assert y in rest;
      if i > 0 {
        var x := rest[i - 1];
        assert x in t && y in t && FirstIndex(t, x) < FirstIndex(t, y);
      }
    }
  }

  /** Filtering a list keeps the order of first occurrences it had. */
  lemma {:induction false} WithVerdictKeepsOrder(us: seq<string>, t: seq<string>, s: seq<Review>, v: string)
    requires FirstOrdered(us, t)
    ensures FirstOrdered(WithVerdict(us, s, v), t)
    decreases |us|
  {
    if us != [] {
      FirstOrderedTail(us, t);
      WithVerdictKeepsOrder(us[1..], t, s, v);
      if LastVerdict(s, us[0]) == Some(v) {
        FirstOrderedCons(us[0], WithVerdict(us[1..], s, v), t);
      }
    }
  }

  /** Approvers are listed in the order of their first verdicts. */
  lemma ApproversInFirstVerdictOrder(s: seq<Review>)
    ensures FirstOrdered(ApproversOf(s), VerdictLogins(s))
  {
    DedupFirstAppearanceOrder(VerdictLogins(s));
    WithVerdictKeepsOrder(Dedup(VerdictLogins(s)), VerdictLogins(s), s, "APPROVED");
  }

  /** Every approver is a reviewer, and none is listed twice. */
  lemma {:induction false} ApproversAreReviewers(s: seq<Review>)
    ensures forall u :: u in ApproversOf(s) ==> u in ReviewersOf(s)
    ensures NoDuplicates(ApproversOf(s))
  {
    VerdictLoginsAreHuman(s);
    WithVerdictDistinct(Dedup(VerdictLogins(s)), s, "APPROVED");
  }

  lemma {:induction false} WithVerdictDistinct(us: seq<string>, s: seq<Review>, v: string)
    requires NoDuplicates(us)
    ensures NoDuplicates(WithVerdict(us, s, v))
  {
    if us != [] {
      assert NoDuplicates(us[1..]) by {
        forall i, j | 0 <= i < j < |us[1..]| ensures us[1..][i] != us[1..][j] {
          assert us[1..][i] == us[i + 1] && us[1..][j] == us[j + 1];
        }
      }
      WithVerdictDistinct(us[1..], s, v);
      assert us[0] !in us[1..] by {
        forall k | 0 <= k < |us[1..]| ensures us[1..][k] != us[0] {
          assert us[1..][k] == us[k + 1];
        }
      }
    }
  }

  /** The witness of a last verdict: that review, with no later verdict from `u`. */
  lemma {:induction false} LastVerdictIsLast(s: seq<Review>, u: string)
    ensures LastVerdict(s, u).Some? ==>
              exists i :: 0 <= i < |s| && s[i] == Review(u, LastVerdict(s, u).value) && Counts(s[i]) &&
                          forall j :: i < j < |s| ==> !(Counts(s[j]) && s[j].login == u)
    ensures LastVerdict(s, u).None? ==> forall i :: 0 <= i < |s| ==> !(Counts(s[i]) && s[i].login == u)
  {
    if s != [] {
      var s' := s[..|s| - 1];
      var n := |s| - 1;
      LastVerdictIsLast(s', u);
      if Counts(s[n]) && s[n].login == u {
        assert s[n] == Review(u, LastVerdict(s, u).value);
      } else if LastVerdict(s', u).Some? {
        var i :| 0 <= i < |s'| && s'[i] == Review(u, LastVerdict(s', u).value) && Counts(s'[i]) &&
                 forall j :: i < j < |s'| ==> !(Counts(s'[j]) && s'[j].login == u);
        assert s[i] == s'[i];
        forall j | i < j < |s| ensures !(Counts(s[j]) && s[j].login == u) {
          if j < n {
            assert s[j] == s'[j];
          }
        }
      } else {
        forall i | 0 <= i < |s| ensures !(Counts(s[i]) && s[i].login == u) {
          if i < n {
            assert s[i] == s'[i];
          }
        }
      }
    }
  }

  lemma {:induction false} WithVerdictSame(us: seq<string>, s: seq<Review>, t: seq<Review>, v: string)
    requires forall u :: LastVerdict(s, u) == LastVerdict(t, u)
    ensures WithVerdict(us, s, v) == WithVerdict(us, t, v)
  {
    if us != [] {
      WithVerdictSame(us[1..], s, t, v);
    }
  }

  /** A review of any other state, such as COMMENTED, changes neither list of approvers nor any verdict. */
  lemma NonVerdictNeverOverrides(s: seq<Review>, r: Review)
    requires !IsVerdict(r.state)
    ensures forall u :: LastVerdict(s + [r], u) == LastVerdict(s, u)
    ensures ApproversOf(s + [r]) == ApproversOf(s)
  {
    ReviewStep(s, r);
    assert VerdictLogins(s + [r]) == VerdictLogins(s);
    forall u ensures LastVerdict(s + [r], u) == LastVerdict(s, u) {
      LastVerdictStep(s, r, u);
    }
    WithVerdictSame(Dedup(VerdictLogins(s)), s + [r], s, "APPROVED");
  }

  lemma WithVerdictSingle(u: string, s: seq<Review>, v: string)
    ensures WithVerdict([u], s, v) == if LastVerdict(s, u) == Some(v) then [u] else []
  {
    assert [u][1..] == [];
  }

  /** Two verdicts of "amy": her reviewer list is ["amy"] and her last verdict is the second. */
  lemma AmyTwice(a: Review, b: Review)
    requires a.login == "amy" && b.login == "amy" && IsVerdict(a.state) && IsVerdict(b.state)
    ensures Dedup(VerdictLogins([a, b])) == ["amy"]
    ensures LastVerdict([a, b], "amy") == Some(b.state)
  {
    assert !EndsWith("amy", "[bot]");
    assert [a, b] == [a] + [b] && [a] == [] + [a];
    ReviewStep([], a);
    ReviewStep([a], b);
    assert VerdictLogins([a, b]) == ["amy", "amy"];
    AmyOnce();
    LastVerdictStep([a], b, "amy");
  }

  /** A later change request withdraws an approval. */
  lemma ChangeRequestWithdrawsApproval()
    ensures ApproversOf([Review("amy", "APPROVED"), Review("amy", "CHANGES_REQUESTED")]) == []
  {
    var s := [Review("amy", "APPROVED"), Review("amy", "CHANGES_REQUESTED")];
    AmyTwice(s[0], s[1]);
    assert [s[0], s[1]] == s;
    WithVerdictSingle("amy", s, "APPROVED");
  }

  lemma AmyOnce()
    ensures Dedup(["amy", "amy"]) == ["amy"]
  {
    DedupStep(["amy"], "amy");
    DedupStep([], "amy");
    assert [] + ["amy"] == ["amy"] && ["amy"] + ["amy"] == ["amy", "amy"];
  }

  /** A later approval counts, and a later comment does not undo it. */
  lemma LaterApprovalCounts()
    ensures ApproversOf([Review("amy", "CHANGES_REQUESTED"), Review("amy", "APPROVED"), Review("amy", "COMMENTED")]) == ["amy"]
  {
    var a := Review("amy", "CHANGES_REQUESTED");
    var b := Review("amy", "APPROVED");
    var c := Review("amy", "COMMENTED");
    assert [a, b, c] == [a, b] + [c];
    NonVerdictNeverOverrides([a, b], c);
    AmyTwice(a, b);
    WithVerdictSingle("amy", [a, b], "APPROVED");
  }

  /** A bot's review makes it neither a reviewer nor an approver. */
  lemma BotsNeverCount()
    ensures ReviewersOf([Review("ci[bot]", "APPROVED")]) == []
    ensures ApproversOf([Review("ci[bot]", "APPROVED")]) == []
  {
    var r := Review("ci[bot]", "APPROVED");
    assert EndsWith("ci[bot]", "[bot]") by {
      assert "ci[bot]"[2..] == "[bot]";
    }
    ReviewStep([], r);
    assert [] + [r] == [r];
  }

  // ---------------------------------------------------------------------
  // The reviewer merge of `enrich_prs`
  // ---------------------------------------------------------------------

  function NonEmpty(s: seq<string>): (r: seq<string>)
    ensures forall u :: u in r <==> u in s && u != ""
  {
    if s == [] then [] else (if s[0] != "" then [s[0]] else []) + NonEmpty(s[1..])
  }

  /**
   * The review-derived reviewers followed by the requested ones with a login,
   * deduplicated: every name of both lists once, the review-derived ones in
   * front when they are themselves distinct.
   */
  function MergeReviewers(reviewed: seq<string>, requested: seq<string>): (r: seq<string>)
    ensures forall u :: u in r <==> u in reviewed || (u in requested && u != "")
    ensures NoDuplicates(r)
    ensures NoDuplicates(reviewed) ==> |reviewed| <= |r| && r[..|reviewed|] == reviewed
    ensures FirstOrdered(r, reviewed + NonEmpty(requested))
  {
    DedupFirstAppearanceOrder(reviewed + NonEmpty(requested));
    DedupPrefix(reviewed, NonEmpty(requested));
    if NoDuplicates(reviewed) then DedupDistinct(reviewed); Dedup(reviewed + NonEmpty(requested))
    else Dedup(reviewed + NonEmpty(requested))
  }

  /** A pull request with the fields `enrich_prs` sets on it. */
  datatype EnrichedPR = EnrichedPR(pr: RawPR, reviewed: bool, ignored: bool, reviewers: seq<string>, approvedBy: seq<string>)

  function EnrichedOf(gh: GitHub, repo: string, pr: RawPR): EnrichedPR
  {
    var comments := Served(CommentPages(gh, repo, pr.number));
    var reviews := Served(ReviewPages(gh, repo, pr.number));
    EnrichedPR(pr, AIReviewed(comments), IgnoreMarked(comments),
               MergeReviewers(ReviewersOf(reviews), pr.requestedReviewers), ApproversOf(reviews))
  }

  method EnrichPR(gh: GitHub, repo: string, pr: RawPR) returns (e: EnrichedPR)
    ensures e == EnrichedOf(gh, repo, pr)
  {
    var aiReviewed, ignored := CheckPRComments(CommentPages(gh, repo, pr.number));
    var reviewers, approvedBy := ReviewDetails(ReviewPages(gh, repo, pr.number));
    e := EnrichedPR(pr, aiReviewed, ignored, MergeReviewers(reviewers, pr.requestedReviewers), approvedBy);
  }

  /** `enrich_prs`, one pull request after the other; `gather` keeps the input order. */
  method EnrichPRs(gh: GitHub, repo: string, prs: seq<RawPR>) returns (es: seq<EnrichedPR>)
    ensures |es| == |prs|
    ensures forall i :: 0 <= i < |prs| ==> es[i] == EnrichedOf(gh, repo, prs[i])
  {
    es := [];
    for i := 0 to |prs|
      invariant |es| == i
      invariant forall k :: 0 <= k < i ==> es[k] == EnrichedOf(gh, repo, prs[k])
    {
      var e := EnrichPR(gh, repo, prs[i]);
      es := es + [e];
    }
  }

  /**
   * What an enriched pull request promises: the reviewers are distinct, they
   * include every approver and every requested reviewer with a login, and
   * approvers are distinct.
   */
  lemma EnrichedInvariant(gh: GitHub, repo: string, pr: RawPR)
    ensures var e := EnrichedOf(gh, repo, pr);
            && NoDuplicates(e.reviewers)
            && NoDuplicates(e.approvedBy)
            && (forall u :: u in e.approvedBy ==> u in e.reviewers)
            && (forall u :: u in pr.requestedReviewers && u != "" ==> u in e.reviewers)
  {
    ApproversAreReviewers(Served(ReviewPages(gh, repo, pr.number)));
  }

  // ---------------------------------------------------------------------
  // `get_authors`
  // ---------------------------------------------------------------------

  function Logins(prs: seq<RawPR>): set<string>
  {
    set pr | pr in prs :: pr.login
  }

  /** The listing `get_prs` returns, without an author filter, for each of `repos`. */
  function Listings(gh: GitHub, repos: seq<string>, since: string, until: string): (ls: seq<seq<RawPR>>)
    ensures |ls| == |repos|
    ensures forall k :: 0 <= k < |repos| ==> ls[k] == ListedPRs(gh, repos[k], since, until, None)
  {
    seq(|repos|, k requires 0 <= k < |repos| => ListedPRs(gh, repos[k], since, until, None))
  }

  /** The authors of the pull requests of all the listings. */
  function LoginsOf(listings: seq<seq<RawPR>>): set<string>
  {
    if listings == [] then {} else LoginsOf(listings[..|listings| - 1]) + Logins(listings[|listings| - 1])
  }

  /** An author is listed exactly when one of their pull requests is in one of the listings. */
  lemma {:induction false} LoginsOfMembers(listings: seq<seq<RawPR>>, u: string)
    ensures u in LoginsOf(listings) <==>
            exists k, pr :: 0 <= k < |listings| && pr in listings[k] && pr.login == u
  {
    if listings != [] {
      var n := |listings| - 1;
      var front := listings[..n];
      LoginsOfMembers(front, u);
      if exists k, pr: RawPR :: 0 <= k < n && pr in front[k] && pr.login == u {
        var k, pr: RawPR :| 0 <= k < n && pr in front[k] && pr.login == u;
        assert listings[k] == front[k];
      }
      if exists k, pr :: 0 <= k < |listings| && pr in listings[k] && pr.login == u {
        var k, pr :| 0 <= k < |listings| && pr in listings[k] && pr.login == u;
        if k < n {
          assert front[k] == listings[k];
        } else {
          assert u in Logins(listings[n]);
        }
      }
    }
  }

  /** Python's `sorted` on strings, as a comparator. */
  function CodePointOrder(): (string, string) -> int
  {
    (a: string, b: string) => LexCompare(a, b)
  }

  lemma CodePointOrderIsComparator()
    ensures StableSort.IsComparator(CodePointOrder())
  {
    var cmp := CodePointOrder();
    forall a, b ensures StableSort.AntisymmetricAt(cmp, a, b) {
      LexCompareAntisymmetric(a, b);
    }
    forall a, b, c ensures StableSort.TransitiveAt(cmp, a, b, c) {
      if LexCompare(a, b) <= 0 && LexCompare(b, c) <= 0 {
        LexCompareTransitive(a, b, c);
      }
    }
  }

  ghost predicate StrictlyAscending(s: seq<string>)
  {
    forall i, j :: 0 <= i < j < |s| ==> LexCompare(s[i], s[j]) < 0
  }

  /** Counts of at most one in the multiset mean no element repeats. */
  lemma DistinctByCount(s: seq<string>)
    requires forall y :: multiset(s)[y] <= 1
    ensures NoDuplicates(s)
  {
    forall i, j | 0 <= i < j < |s| ensures s[i] != s[j] {
      assert s == s[..j] + [s[j]] + s[j + 1..];
      assert multiset(s)[s[j]] >= multiset(s[..j])[s[j]] + 1;
      assert s[..j][i] == s[i];
    }
  }

  /** `sorted(found)`: the elements of the set, each once, in ascending order. */
  method SortedList(found: set<string>) returns (r: seq<string>)
    ensures forall u :: u in r <==> u in found
    ensures StrictlyAscending(r)
  {
    CodePointOrderIsComparator();
    r := [];
    var rest := found;
    while rest != {}
      invariant rest <= found
      invariant forall y :: multiset(r)[y] == if y in found - rest then 1 else 0
      invariant StableSort.Sorted(CodePointOrder(), r)
      decreases |rest|
    {
      var x :| x in rest;
      StableSort.InsertSorted(CodePointOrder(), x, r);
      r := StableSort.Insert(CodePointOrder(), x, r);
      rest := rest - {x};
    }
    forall u ensures u in r <==> u in found {
      assert u in r <==> multiset(r)[u] > 0;
    }
    DistinctByCount(r);
    forall i, j | 0 <= i < j < |r| ensures LexCompare(r[i], r[j]) < 0 {
      LexCompareZero(r[i], r[j]);
    }
  }

  /** The inner loop of `get_authors`: the logins of `prs` added to `found`. */
  method AddLogins(found: set<string>, prs: seq<RawPR>) returns (r: set<string>)
    ensures r == found + Logins(prs)
  {
    r := found;
    var i := 0;
    while i < |prs|
      invariant 0 <= i <= |prs|
      invariant r == found + Logins(prs[..i])
    {
      assert prs[..i + 1] == prs[..i] + [prs[i]];
      r := r + {prs[i].login};
      i := i + 1;
    }
    assert prs[..i] == prs;
  }

  /** `get_authors`: the distinct logins over every repository's listing, sorted. */
  method GetAuthors(gh: GitHub, repos: seq<string>, since: string, until: string) returns (authors: seq<string>)
    ensures forall u :: u in authors <==> u in LoginsOf(Listings(gh, repos, since, until))
    ensures StrictlyAscending(authors)
  {
    ghost var listings := Listings(gh, repos, since, until);
    var found: set<string> := {};
    for k := 0 to |repos|
      invariant found == LoginsOf(listings[..k])
    {
      assert listings[..k + 1][..k] == listings[..k];
      var prs := GetPRs(gh, repos[k], since, until, None);
      assert prs == listings[k];
      found := AddLogins(found, prs);
    }
    assert listings[..|repos|] == listings;
    authors := SortedList(found);
  }
}
