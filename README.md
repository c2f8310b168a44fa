# PR data dashboard: a verified model of its listing logic

The dashboard lists the pull requests of several GitHub repositories for a range of days. Users can filter the list by repository, author, status and an "ignored" marker. For each pull request it shows whether the automated AI review ran, the human review label, the reviewers and the approvers. This project models the deterministic parts of that system in Dafny and proves what they promise.

Backend, the FastAPI service:
- `services/github.py` walks GitHub's paginated listings. Here the server's answers are given as data: page sequences per repository and state, and comment and review pages per pull request.
  - The pull-request scan over a date window stops early (`GitHubService.FetchPRs`).
  - The comment scan looks for the AI-review and ignore markers (`CheckPRComments`).
  - Reviewers and approvers are reduced with "last verdict wins" (`ReviewDetails`).
  - Requested reviewers are merged in with an ordered dedup (`EnrichPRs`).
  - The distinct authors are collected and sorted (`GetAuthors`).
- `routers/prs.py` builds the response:
  - the label and status classification (`PRsRouter.HumanReviewOf`, `StatusOf`);
  - the choice of target repositories;
  - the ignored and status filters;
  - the newest-first ordering;
  - the summary statistics (`PRsRouter.ListPRs`, `ListAuthors`).

Frontend, the React client:
- `PRTable.tsx`: `PRSort` holds the per-column comparator and the stable sort. `Pagination` holds page count, clamped page and page rows. `PRTable.TableState` is a class holding the sort key, the direction and the page; its methods are the header clicks and the four navigation buttons.
- `StatsBar.tsx`: `StatsBar.BarStats` computes the counts and the percentages, in integer tenths.
- `usePRs.ts`: `UsePRs.FetchHook` is a class with the `data`, `loading` and `error` cells, one `cancelled` flag per effect run, and the mounted flag. `Start`, `Resolve`, `Reject` and `Unmount` are its events.
- `api/client.ts`: `ApiClient` builds the query strings as ordered entry lists and gives the error message of a failed response.

Modelling choices:
- Timestamps are GitHub's fixed-width ISO strings ("2024-05-01T09:30:00Z"), ordered by `Strings.LexCompare`. This is the order in which `created_at` values compare on both sides. The router's window bounds are `DayStart(d) = d + "T00:00:00Z"` and `DayEnd(d) = d + "T23:59:59Z"`. `PRsRouter.WindowIsTheDays` proves that these bounds select exactly the days from `since` to `until`.
- JavaScript's `localeCompare` is modelled as code-point order (`LexCompare`).
- Python's `str.lower` is modelled as ASCII lower-casing.
- The frontend's `Math.round(x * 1000) / 10` is modelled as half-up rounding to tenths (`StatsBar.RoundedTenths`). The backend's `round(x, 1)` is modelled as half-to-even rounding to tenths of the exact ratio (`PRsRouter.HalfEvenTenths`).
- Percentages are naturals in tenths: 667 stands for 66.7.
- A comment's missing `user` login or `body` and a review's missing login or `state` are the empty string, as the `.get(..., "")` defaults at `github.py:117-118` and `github.py:160-161` make them. Other fields are read with `[...]` and a missing one raises `KeyError`: the pull request's `user` and login (`github.py:45,81,210`, `prs.py:86`), its `state` (`prs.py:37`) and a label's `name` (`prs.py:26`). The model has those fields present by construction.
- An optional string counts as given when it is present and not empty (`Wrappers.Truthy`). This is truthiness in both Python and JavaScript.

Page state of the table:
- Within `PRTable`, only a header click resets the page to 0 (`PRTable.tsx:41-49`), and a stale page index is clamped when the page is shown (`PRTable.tsx:38`). So `TableState.page` is any natural, and `ShownPage` clamps it.
- `Dashboard.tsx:71-76` renders "Loading PRs..." in place of the table while `loading` is true, and every fetch sets `loading`. So every filter change or refresh unmounts the table and mounts a fresh one on page 0, sorted by creation time, descending (`PRTable.TableState.constructor`). That remount is not modelled as an event.

## Model

| member | source | states |
|---|---|---|
| Strings.LexCompare | frontend/src/components/PRTable.tsx:24-31 | string comparison yields -1, 0 or 1 |
| Strings.LexCompareZero | frontend/src/components/PRTable.tsx:24-31 | comparison is 0 exactly when the strings are equal |
| Strings.LexCompareAntisymmetric | frontend/src/components/PRTable.tsx:24-31 | swapping the operands negates the comparison |
| Strings.LexCompareTransitive | frontend/src/components/PRTable.tsx:24-31 | "at most" is transitive, so the comparator is a total preorder |
| Strings.LexCompareExtend | backend/app/routers/prs.py:67-68 | a date that is earlier stays earlier whatever time of day follows it |
| Strings.LexComparePrefix | backend/app/routers/prs.py:67-68 | a shared date prefix leaves the time-of-day comparison unchanged |
| Strings.LexCompareCharwise | backend/app/routers/prs.py:68 | equal-length strings that are pointwise no greater compare as no greater |
| Strings.LexCompareAt | backend/app/routers/prs.py:68 | the first differing character decides the order |
| Strings.Lower | backend/app/routers/prs.py:26 | lower-casing keeps the length, maps each character and leaves no capital |
| Strings.ContainsAt | backend/app/services/github.py:119-121 | `p in s` holds exactly when `p` occurs at some index of `s` |
| GitHubData.ServedFromUnfold | backend/app/services/github.py:64-87 | the items read from a page on are that page, then the next pages only if it was full |
| GitHubData.ServedAdvance | backend/app/services/github.py:85-87 | the items read so far plus the current page make the whole stream, or continue it when the page is full |
| GitHubData.ServedStopsAtShortPage | backend/app/services/github.py:71-86 | pages after an empty or short page are never read |
| GitHubData.Dedup | backend/app/services/github.py:195-197 | `dict.fromkeys`: the same members as the input, no duplicates, no longer than the input |
| GitHubData.FirstIndex | backend/app/services/github.py:163 | the first position of an element, with no earlier occurrence |
| GitHubData.FirstIndexPrefix | backend/app/services/github.py:195-197 | appending elements leaves every first position unchanged |
| GitHubData.DedupFirstAppearanceOrder | backend/app/services/github.py:195-197 | deduplicated elements are in the order of their first appearance |
| GitHubData.DedupPrefix | backend/app/services/github.py:195-197 | deduplicating a longer list keeps the dedup of its prefix in front |
| GitHubData.DedupDistinct | backend/app/services/github.py:195-197 | a list without duplicates is its own dedup |
| GitHubService.StopIndex | backend/app/services/github.py:79-80 | the position of the first pull request created before `since`; none before it stops the scan |
| GitHubService.KeptOf | backend/app/services/github.py:77-83 | its members are exactly the in-window, non-dependabot pull requests of the stream |
| GitHubService.ScanIsKeptBeforeStop | backend/app/services/github.py:74-83 | the scan returns, in order, the kept pull requests in front of the first one older than `since` |
| GitHubService.ScanMembers | backend/app/services/github.py:74-83 | a pull request is returned exactly when it is kept and comes before the first stopper |
| GitHubService.NoneKept | backend/app/services/github.py:79-80 | a stream older than the window keeps nothing |
| GitHubService.EarlyStopLosesNothing | backend/app/services/github.py:57-80 | on GitHub's newest-first order, stopping early loses no in-window pull request |
| GitHubService.NoStopperAt | backend/app/services/github.py:79-80 | a page has no stopper exactly when none of its items stops the scan |
| GitHubService.NoStopperAppend | backend/app/services/github.py:74-83 | two parts have no stopper exactly when neither part has one |
| GitHubService.ScanAppend | backend/app/services/github.py:74-87 | scanning two parts scans the second only when the first has no stopper |
| GitHubService.ScanStep | backend/app/services/github.py:77-83 | one item skips when after `until`, skips dependabot, stops when before `since`, else is appended |
| GitHubService.ScanPage | backend/app/services/github.py:74-83 | the inner loop returns the scan of the page, and reports a stopper exactly when the page has one |
| GitHubService.StopperEndsScan | backend/app/services/github.py:79-80 | after a stopper nothing more is returned |
| GitHubService.FetchStep | backend/app/services/github.py:64-87 | the scan from a page on is that page's scan, then the next pages' only if it was full and had no stopper |
| GitHubService.PagesAskedFrom | backend/app/services/github.py:62-87 | at least one page is asked for |
| GitHubService.PagesAskedAreUpToFirstFinal | backend/app/services/github.py:71-87 | every page asked before the last continued, and the last one ends the loop |
| GitHubService.FetchPRs | backend/app/services/github.py:50-89 | `_fetch_prs` returns the scan of all pages served, and asks for exactly the pages up to the first final one |
| GitHubService.FetchContinue | backend/app/services/github.py:85-87 | a full page without a stopper keeps the loop state for the next page |
| GitHubService.FetchFinal | backend/app/services/github.py:71-86 | an empty page, a short page or a stopper completes the results |
| GitHubService.OfAuthor | backend/app/services/github.py:43-46 | keeps exactly the pull requests whose login equals the author, ignoring case |
| GitHubService.GetPRs | backend/app/services/github.py:30-48 | `get_prs` returns the open then closed window scans, filtered by author when one is given |
| GitHubService.ListedMembers | backend/app/services/github.py:38-46 | a pull request is listed exactly when one of the two scans has it and it passes the author filter |
| GitHubService.OpenResultsFirst | backend/app/services/github.py:39-41 | without an author, the open-state results come first |
| GitHubService.CommentsAppend | backend/app/services/github.py:116-122 | both flags of two comment runs are the disjunction of the parts' flags |
| GitHubService.ScanComments | backend/app/services/github.py:116-122 | one page ORs into `ai_reviewed` a bot "Code Review" comment and into `ignored` any "#ignore-tracker" comment |
| GitHubService.CheckPRComments | backend/app/services/github.py:91-130 | `ai_reviewed` and `ignored` are the two predicates over every comment served |
| GitHubService.CommentExamples | backend/app/services/github.py:119-122 | the review marker counts only from `github-actions[bot]`; the ignore marker counts from anyone |
| GitHubService.WithVerdict | backend/app/services/github.py:171 | keeps exactly the logins whose last verdict is the given state |
| GitHubService.ReviewStep | backend/app/services/github.py:159-165 | one review adds its login to the human and verdict logins exactly when it qualifies |
| GitHubService.LastVerdictStep | backend/app/services/github.py:164-165 | a qualifying verdict by `u` becomes `u`'s latest state; anything else leaves it |
| GitHubService.ReviewersStep | backend/app/services/github.py:162-163 | a new human login is appended to the reviewers; otherwise they are unchanged |
| GitHubService.VerdictOrderStep | backend/app/services/github.py:165-171 | the key order of `latest_state` grows only at a login's first verdict |
| GitHubService.DedupStep | backend/app/services/github.py:163 | an element already present leaves the dedup unchanged, a new one is appended |
| GitHubService.DetailsStep | backend/app/services/github.py:159-165 | the loop body keeps the relation of `reviewers` and `latest_state` to the reviews read |
| GitHubService.DetailsOfStep | backend/app/services/github.py:159-165 | the loop state after one more review is the body's update of the previous state |
| GitHubService.DetailsOfState | backend/app/services/github.py:144-165 | the folded loop state relates to the reviews read |
| GitHubService.ReviewPage | backend/app/services/github.py:159-165 | the inner loop over one page computes the fold over the reviews read so far and that page |
| GitHubService.ApprovedKeysAreApprovers | backend/app/services/github.py:171 | filtering `latest_state` for APPROVED gives the logins whose last verdict is an approval |
| GitHubService.ReviewDetails | backend/app/services/github.py:132-177 | `get_review_details` returns the reviewers and approvers of all reviews served |
| GitHubService.VerdictLoginsHaveVerdict | backend/app/services/github.py:164-165 | a login has a latest state exactly when it left a qualifying verdict |
| GitHubService.VerdictLoginsAreHuman | backend/app/services/github.py:162-165 | only human logins get a latest state |
| GitHubService.ReviewersMembers | backend/app/services/github.py:160-163 | a login is a reviewer exactly when it is human and left some review |
| GitHubService.ReviewersAreDistinctHumans | backend/app/services/github.py:159-163 | reviewers have no duplicates, no empty login and no "[bot]" login |
| GitHubService.ReviewersInFirstReviewOrder | backend/app/services/github.py:159-173 | reviewers are in the order of their first reviews |
| GitHubService.ApproverIff | backend/app/services/github.py:159-171 | a login approves exactly when its last qualifying verdict is APPROVED |
| GitHubService.WithVerdictKeepsOrder | backend/app/services/github.py:171 | the comprehension over `latest_state` keeps the order of first occurrences its keys had |
| GitHubService.ApproversInFirstVerdictOrder | backend/app/services/github.py:164-171 | approvers are listed in the order of their first qualifying verdicts |
| GitHubService.ApproversAreReviewers | backend/app/services/github.py:171-173 | every approver is a reviewer, and none is listed twice |
| GitHubService.WithVerdictDistinct | backend/app/services/github.py:171 | filtering distinct logins keeps them distinct |
| GitHubService.LastVerdictIsLast | backend/app/services/github.py:164-165 | a latest state comes from a qualifying review with no later verdict from that login; without one, no verdict exists |
| GitHubService.WithVerdictSame | backend/app/services/github.py:171 | approvers depend only on the latest verdicts |
| GitHubService.NonVerdictNeverOverrides | backend/app/services/github.py:164 | a COMMENTED or other non-verdict review changes no verdict and no approver |
| GitHubService.WithVerdictSingle | backend/app/services/github.py:171 | a single login is kept exactly when its last verdict matches |
| GitHubService.AmyTwice | backend/app/services/github.py:163-165 | two verdicts by one login list it once and keep the second state |
| GitHubService.ChangeRequestWithdrawsApproval | backend/app/services/github.py:164-171 | APPROVED then CHANGES_REQUESTED leaves no approver |
| GitHubService.AmyOnce | backend/app/services/github.py:163 | a repeated login is listed once |
| GitHubService.LaterApprovalCounts | backend/app/services/github.py:164-171 | CHANGES_REQUESTED, APPROVED, COMMENTED makes the reviewer an approver |
| GitHubService.BotsNeverCount | backend/app/services/github.py:162 | a "[bot]" review makes neither a reviewer nor an approver |
| GitHubService.NonEmpty | backend/app/services/github.py:190-194 | keeps exactly the non-empty requested logins |
| GitHubService.MergeReviewers | backend/app/services/github.py:190-198 | the merge holds every reviewer and every non-empty requested login, none twice, with the reviewers in front, and lists them in first-appearance order of the reviewers followed by the requested logins |
| GitHubService.EnrichPR | backend/app/services/github.py:183-200 | one pull request gets its comment flags, merged reviewers and approvers |
| GitHubService.EnrichPRs | backend/app/services/github.py:179-202 | `enrich_prs` enriches each pull request in input order |
| GitHubService.EnrichedInvariant | backend/app/services/github.py:190-199 | enriched reviewers and approvers are distinct, approvers are reviewers, requested logins are reviewers |
| GitHubService.Listings | backend/app/services/github.py:207-208 | one author-less listing per repository |
| GitHubService.LoginsOfMembers | backend/app/services/github.py:206-210 | a login is collected exactly when one of its pull requests is in some listing |
| GitHubService.CodePointOrderIsComparator | backend/app/services/github.py:211 | Python's string order is a consistent comparator |
| GitHubService.DistinctByCount | backend/app/services/github.py:211 | multiplicity at most one means no duplicates |
| GitHubService.SortedList | backend/app/services/github.py:211 | `sorted(set)` has the set's members, strictly ascending |
| GitHubService.AddLogins | backend/app/services/github.py:209-210 | the inner loop adds the logins of one listing to the set |
| GitHubService.GetAuthors | backend/app/services/github.py:204-211 | `get_authors` returns the logins of all listings, each once, strictly ascending |
| StableSort.Antisymmetric | frontend/src/components/PRTable.tsx:21-35 | a comparator is antisymmetric and reflexive on ties |
| StableSort.Transitive | frontend/src/components/PRTable.tsx:21-35 | a comparator's "at most" is transitive |
| StableSort.TieCompatible | frontend/src/components/PRTable.tsx:21-35 | ties are an equivalence |
| StableSort.Insert | frontend/src/components/PRTable.tsx:21 | inserting adds the element to the multiset |
| StableSort.Sort | frontend/src/components/PRTable.tsx:21 | the sort is a permutation of its input |
| StableSort.TiesMembers | frontend/src/components/PRTable.tsx:21-35 | a tie group holds exactly the elements with an equal key |
| StableSort.TiesAppend | frontend/src/components/PRTable.tsx:21-35 | a tie group of a concatenation is the two groups concatenated |
| StableSort.SortedCons | frontend/src/components/PRTable.tsx:21 | a minimal head keeps a sorted sequence sorted |
| StableSort.InsertMember | frontend/src/components/PRTable.tsx:21 | insertion adds nothing but the element |
| StableSort.InsertSorted | frontend/src/components/PRTable.tsx:21 | insertion keeps a sequence sorted |
| StableSort.SortSorted | frontend/src/components/PRTable.tsx:21 | the sort's result is ordered |
| StableSort.InsertTies | frontend/src/components/PRTable.tsx:21 | an inserted element lands in front of its ties |
| StableSort.SortTies | frontend/src/components/PRTable.tsx:21 | every tie group keeps its input order |
| StableSort.SortIsStable | frontend/src/components/PRTable.tsx:21 | the sort is a stable sort: ordered, a permutation, ties in input order |
| StableSort.FirstPrecedes | frontend/src/components/PRTable.tsx:21 | the head of a sorted sequence may precede every element |
| StableSort.SortedSameTiesEqual | frontend/src/components/PRTable.tsx:21 | two sorted sequences with the same tie groups are equal |
| StableSort.StableSortUnique | frontend/src/components/PRTable.tsx:21 | every stable sort of a sequence equals the model's sort |
| StableSort.NegatedTies | frontend/src/components/PRTable.tsx:34 | negating a comparator keeps its tie groups |
| StableSort.NegatedIsComparator | frontend/src/components/PRTable.tsx:34 | the negation of a comparator is a comparator |
| StableSort.Reverse | frontend/src/components/PRTable.tsx:34 | reversal mirrors positions |
| StableSort.ReverseAppend | frontend/src/components/PRTable.tsx:34 | reversal turns a concatenation around |
| StableSort.TiesReverse | frontend/src/components/PRTable.tsx:34 | the tie groups of a reversal are the reversed groups |
| StableSort.DistinctKeysTies | frontend/src/components/PRTable.tsx:21-35 | with distinct keys every tie group has at most one element |
| StableSort.NegatedSortIsReverse | frontend/src/components/PRTable.tsx:34 | with distinct keys, sorting by the negation is the reversed sort |
| PRModel.CountReviewed | frontend/src/components/StatsBar.tsx:9 | the reviewed count is at most the number of records |
| PRModel.CountWith2Approvals | frontend/src/components/StatsBar.tsx:12 | the two-approvals count is at most the number of records |
| PRModel.CountReviewedAll | frontend/src/components/StatsBar.tsx:9 | the count is the total exactly when every record is reviewed |
| PRModel.CountWith2ApprovalsAll | frontend/src/components/StatsBar.tsx:12-30 | the count is the total exactly when every record has two approvals |
| PRModel.CountsInvariantUnderPermutation | frontend/src/components/StatsBar.tsx:8-13 | the counts do not depend on record order |
| PRModel.CountsOfRemoval | frontend/src/components/StatsBar.tsx:9-12 | removing one record lowers each count by that record's share |
| PRSort.SortRows | frontend/src/components/PRTable.tsx:21 | the sorted copy is a permutation of the rows |
| PRSort.CompareAntisymmetric | frontend/src/components/PRTable.tsx:22-33 | each column comparator is antisymmetric |
| PRSort.CompareTransitive | frontend/src/components/PRTable.tsx:22-33 | each column comparator is transitive |
| PRSort.ComparatorIsConsistent | frontend/src/components/PRTable.tsx:21-35 | every column, in either direction, is a consistent comparator |
| PRSort.DescendingNegates | frontend/src/components/PRTable.tsx:34 | descending is the negated ascending comparator |
| PRSort.SortRowsIsStable | frontend/src/components/PRTable.tsx:21-35 | the sorted rows are a permutation, ordered by the directed comparator, with ties in input order in both directions |
| PRSort.AnyStableSortIsSortRows | frontend/src/components/PRTable.tsx:21 | any ordered arrangement that keeps ties in input order is the model's result, whatever engine sorts |
| PRSort.DescendingReversesWhenKeysDistinct | frontend/src/components/PRTable.tsx:34 | with distinct keys the second click reverses the list |
| PRSort.TiesSurviveSecondClick | frontend/src/components/PRTable.tsx:34-43 | with a tie both directions give input order, so a second click does not reverse it |
| PRSort.TitleSortOrdersByNumber | frontend/src/components/PRTable.tsx:25 | the "title" column orders by PR number |
| PRSort.ReviewersSortExample | frontend/src/components/PRTable.tsx:31 | "amy" sorts before "bob,amy": reviewers compare as one joined string |
| StatsBar.RoundedTenths | frontend/src/components/StatsBar.tsx:11-13 | zero for no records; otherwise the nearest tenth with halves rounded up, at most 1000 |
| StatsBar.TenthsAtMostAll | frontend/src/components/StatsBar.tsx:11-13 | a part of the whole rounds to at most 100.0% |
| StatsBar.BarStats | frontend/src/components/StatsBar.tsx:8-13 | total, counts at most total, reviewed plus not reviewed is total; each percentage is the half-up nearest tenth of its count over the total, 0 when empty, at most 1000 |
| StatsBar.AllApprovedStyleIff | frontend/src/components/StatsBar.tsx:30 | the "all approved" style shows exactly when there are records and all have two approvals |
| StatsBar.ReviewedPercentExtremes | frontend/src/components/StatsBar.tsx:11 | all reviewed reads 100.0%, none reviewed reads 0.0% |
| StatsBar.BarStatsOrderIndependent | frontend/src/components/StatsBar.tsx:8-13 | the figures do not depend on record order |
| StatsBar.RoundingExamples | frontend/src/components/StatsBar.tsx:11 | 2 of 3 reads 66.7 and 1 of 16 reads 6.3 |
| Pagination.TotalPages | frontend/src/components/PRTable.tsx:37 | the fewest pages of ten holding all rows, and at least one |
| Pagination.SafePage | frontend/src/components/PRTable.tsx:38 | the page shown is in range, at most the stored page, and either it or the last page |
| Pagination.Slice | frontend/src/components/PRTable.tsx:39 | `slice` with clamped bounds returns that window of the rows |
| Pagination.PageRows | frontend/src/components/PRTable.tsx:37-39 | the page's rows are the rows from the clamped page's start, at most ten, and some whenever there are rows |
| Pagination.StalePageShowsLast | frontend/src/components/PRTable.tsx:38 | a page beyond the end shows the last page |
| Pagination.PageRowsAt | frontend/src/components/PRTable.tsx:39 | an existing page is the slice from its start to the next page or the end |
| Pagination.PagesBeforePrefix | frontend/src/components/PRTable.tsx:37-39 | the first `k` pages together are the first `10k` rows |
| Pagination.AllPagesRebuildRows | frontend/src/components/PRTable.tsx:37-39 | all pages in order rebuild exactly the sorted rows |
| Pagination.NavigationShownIffUsable | frontend/src/components/PRTable.tsx:128-137 | the navigation shows exactly when a button is enabled, which is exactly when there are more than ten rows |
| PRTable.TableState.constructor | frontend/src/components/PRTable.tsx:17-19 | a new table sorts by creation time, descending, on page 0 |
| PRTable.TableState.Sorted | frontend/src/components/PRTable.tsx:21-35 | the displayed order is a permutation, ordered in the current direction, with ties in input order |
| PRTable.TableState.ShownPage | frontend/src/components/PRTable.tsx:37-38 | the page in effect is in range and is the stored page when that is in range |
| PRTable.TableState.Shown | frontend/src/components/PRTable.tsx:39 | the page rows of the sorted list for the page in effect: all ten from its start, or the rest when fewer remain |
| PRTable.TableState.HandleSort | frontend/src/components/PRTable.tsx:41-49 | the same column flips the direction, a new column sorts ascending, the page resets to 0 |
| PRTable.TableState.GoFirst | frontend/src/components/PRTable.tsx:130 | off the first page the button goes to page 0; otherwise nothing changes |
| PRTable.TableState.GoPrev | frontend/src/components/PRTable.tsx:131 | off the first page the button goes one before the page shown, in range |
| PRTable.TableState.GoNext | frontend/src/components/PRTable.tsx:136 | before the last page the button goes one after the page shown, in range |
| PRTable.TableState.GoLast | frontend/src/components/PRTable.tsx:137 | before the last page the button goes to the last page |
| PRTable.DoubleClickRestoresDirection | frontend/src/components/PRTable.tsx:41-49 | two clicks on the same column restore the direction of the current column; a new column ends descending |
| PRTable.LastPageScenario | frontend/src/components/PRTable.tsx:37-39 | with 25 rows "last" shows page 3 of 3 with five rows, and a later "next" stays there |
| UsePRs.FetchHook.constructor | frontend/src/hooks/usePRs.ts:6-8 | no data, not loading, no error |
| UsePRs.FetchHook.Start | frontend/src/hooks/usePRs.ts:10-26 | a run cancels every earlier run, becomes current, sets loading, clears the error and keeps data |
| UsePRs.FetchHook.Resolve | frontend/src/hooks/usePRs.ts:16-24 | the current run's data replaces the data and stops loading; a stale run changes nothing |
| UsePRs.FetchHook.Reject | frontend/src/hooks/usePRs.ts:19-24 | the current run's failure sets the error and stops loading, keeping the data; a stale run changes nothing |
| UsePRs.FetchHook.Unmount | frontend/src/hooks/usePRs.ts:26 | an unmount cancels every run and changes no state cell |
| UsePRs.RefreshAfterClearCache | frontend/src/components/Dashboard.tsx:33-37 | a successful cache clear starts a current run; a failed one changes nothing |
| UsePRs.SlowFirstResponseIsDropped | frontend/src/hooks/usePRs.ts:17-26 | with two runs answered out of order, the later run's data is what shows |
| UsePRs.StaleResponseKeepsLoading | frontend/src/hooks/usePRs.ts:17-23 | a superseded run's answer leaves the old data and the spinner |
| UsePRs.FailureThenRetry | frontend/src/hooks/usePRs.ts:12-21 | a failure shows its message and keeps the data; the retry clears the message |
| UsePRs.ResponseAfterUnmount | frontend/src/hooks/usePRs.ts:26 | an answer after unmount changes nothing |
| ApiClient.SetParam | frontend/src/api/client.ts:20-25 | `qs.set` makes the key read back the value, leaves other keys, and appends a new key |
| ApiClient.AppendGet | frontend/src/api/client.ts:20-25 | appending a fresh key reads back its value and leaves the others |
| ApiClient.AppendFreshKeepsKeysDistinct | frontend/src/api/client.ts:20-25 | a fresh key keeps the keys distinct |
| ApiClient.RankedDistinct | frontend/src/api/client.ts:20-25 | keys in setting order are distinct |
| ApiClient.RankedAppend | frontend/src/api/client.ts:20-25 | appending a later key keeps the setting order |
| ApiClient.GetPRsQuery | frontend/src/api/client.ts:19-25 | `since` and `until` first; each of repo, author and status exactly when non-empty; `show_ignored=true` exactly when set; in that order, each once |
| ApiClient.SetIfTruthy | frontend/src/api/client.ts:22-24 | a conditional set appends the entry only for a non-empty value |
| ApiClient.SetNew | frontend/src/api/client.ts:20-25 | an unconditional set of a later key appends it |
| ApiClient.ListQueryKeys | frontend/src/api/client.ts:19-25 | the query's keys are the date range, then each optional parameter given |
| ApiClient.ListQueryGet | frontend/src/api/client.ts:22-25 | each optional parameter reads back its value exactly when given |
| ApiClient.GetAuthorsQuery | frontend/src/api/client.ts:34 | the authors query has exactly `since` and `until` |
| ApiClient.NatToString | frontend/src/api/client.ts:7-40 | the status code is written as decimal digits |
| ApiClient.FetchJson | frontend/src/api/client.ts:5-9 | an ok response gives its body, a non-ok one the "API error: status text" message, a network failure its message |
| ApiClient.ClearCache | frontend/src/api/client.ts:38-41 | the cache clear succeeds exactly on an ok status and fails with the same message as `fetchJson` |
| ApiClient.ParseNatToString | frontend/src/api/client.ts:7 | the decimal text of the status reads back as the status |
| ApiClient.ApiErrorMessageRoundTrip | frontend/src/api/client.ts:7-40 | the error message determines the status and status text |
| ApiClient.NotFoundMessage | frontend/src/api/client.ts:7 | a 404 reads "API error: 404 Not Found" |
| PRsRouter.LowerAll | backend/app/routers/prs.py:26 | the lower-cased label names, one per label |
| PRsRouter.HumanReviewOf | backend/app/routers/prs.py:25-31 | approved exactly with an "approved" label; waiting exactly with "wait-review" and no "approved"; none otherwise |
| PRsRouter.LabelCaseIgnored | backend/app/routers/prs.py:26 | relabelling in another case keeps the human review |
| PRsRouter.LabelOrderIgnored | backend/app/routers/prs.py:27-29 | label order and repetition do not matter |
| PRsRouter.StatusOf | backend/app/routers/prs.py:34-39 | merged exactly when `merged_at` is non-empty; otherwise closed exactly when the state is "closed"; else open |
| PRsRouter.ToPRInfoFaithful | backend/app/routers/prs.py:82-96 | the record carries the enrichment unchanged and `approval_count` is the approvers' length |
| PRsRouter.ClockTimeBounds | backend/app/routers/prs.py:67-68 | every time of day lies between 00:00:00 and 23:59:59 |
| PRsRouter.WindowIsTheDays | backend/app/routers/prs.py:67-68 | a timestamp is in the window exactly when its day is between `since` and `until` |
| PRsRouter.TargetRepos | backend/app/routers/prs.py:70 | the requested repository alone when it is configured, otherwise all configured ones |
| PRsRouter.Enriched | backend/app/routers/prs.py:75 | one enrichment per listed pull request, in order |
| PRsRouter.RowsStep | backend/app/routers/prs.py:76-97 | a shown pull request appends its record; a filtered one appends nothing |
| PRsRouter.RowsMembers | backend/app/routers/prs.py:76-97 | a record is a row exactly when it is the record of a shown pull request |
| PRsRouter.Batches | backend/app/routers/prs.py:73-75 | each target's enriched listing, in target order |
| PRsRouter.CollectedStep | backend/app/routers/prs.py:72-97 | each target appends its rows after those of the earlier targets |
| PRsRouter.CollectedMembers | backend/app/routers/prs.py:72-97 | a record is collected exactly when it is the record of a shown pull request of some target |
| PRsRouter.StatusFilterIff | backend/app/routers/prs.py:79-81 | with a status, the rows are exactly the unfiltered rows of that status |
| PRsRouter.UnknownStatusSelectsNothing | backend/app/routers/prs.py:79-81 | a status other than open, merged and closed selects nothing |
| PRsRouter.ShowIgnoredOnlyAdds | backend/app/routers/prs.py:77-78 | hiding ignored pull requests keeps exactly the non-ignored ones, and showing them only adds rows |
| PRsRouter.HalfEvenTenths | backend/app/routers/prs.py:110-112 | zero for no records; otherwise a nearest tenth, an even one on a tie, at most 1000 |
| PRsRouter.HalfEvenFacts | backend/app/routers/prs.py:110-112 | the rounding step meets the nearest-tenth and tie-to-even bounds |
| PRsRouter.ResponseStats | backend/app/routers/prs.py:101-113 | total, reviewed and two-approval counts, reviewed plus not reviewed is total; each percentage is the half-even nearest tenth of its count over the total, 0 when empty, at most 1000 |
| PRsRouter.RoundingAgreesOffTies | backend/app/routers/prs.py:110-112 | away from ties the backend's rounding equals the frontend's |
| PRsRouter.RoundingDiffersOnTie | backend/app/routers/prs.py:110 | on 1 of 16 the frontend shows 6.3 and the response says 6.2 |
| PRsRouter.ResponseStatsMatchBar | backend/app/routers/prs.py:101-104 | the response's counts equal those the statistics bar derives |
| PRsRouter.NewestFirst | backend/app/routers/prs.py:99 | the sorted rows are a permutation of the collected rows |
| PRsRouter.ShownRows | backend/app/routers/prs.py:76-97 | the inner loop builds the rows of one target's shown pull requests |
| PRsRouter.ListPRs | backend/app/routers/prs.py:50-117 | `list_prs` returns the collected rows of the target repositories' day window, sorted newest first, with their statistics |
| PRsRouter.NewestFirstOrdered | backend/app/routers/prs.py:99 | the response never gets newer down the list, and equal creation times keep collection order |
| PRsRouter.CollectedRowFacts | backend/app/routers/prs.py:80-95 | each row comes from a target, has the requested status and counts its approvers |
| PRsRouter.BatchesOfConfiguredRepos | backend/app/routers/prs.py:70-73 | only configured repositories are queried |
| PRsRouter.ListAuthors | backend/app/routers/prs.py:120-139 | `list_authors` returns the logins of every configured repository's listing over the days, each once, ascending |

## Left out

- The TTL caches (`_review_cache`, `_reviewers_cache`, `_prs_cache`, `_authors_cache`) and the `clear_cache` route. Their expiry depends on the clock. With the cache cold, every call equals the uncached computation that is modelled.
- The rate-limit sleep in `_check_rate_limit`. It depends on wall-clock time and response headers, and it does not change any result.
- HTTP and JSON: the `httpx` calls, `raise_for_status`, `resp.json()`, URL encoding of the query string, and `fetch`. Every paginated listing is a given sequence of pages. A request error is the `Outcome` value handed to `ApiClient.FetchJson`.
- The concurrency of `enrich_prs` (`asyncio.Semaphore`, `gather`). It is modelled as a sequential map, which `gather` matches because it keeps the input order.
- The parsing of `since`/`until` by `strptime`, and of `created_at` by `fromisoformat`. Timestamps are GitHub's `YYYY-MM-DDTHH:MM:SSZ` strings, compared as text; a malformed date is not modelled. `_default_since` and `_default_until` read the clock and are not modelled; the dates are inputs.
- PRsRouter.HalfEvenTenths: rounds the exact ratio half to even, not the float `reviewed / total * 100`. Python's `round` on that float can differ when the float lands just off a tie.
- StatsBar.RoundedTenths: rounds the exact ratio half up, not the float product that `Math.round` sees.
- Unicode. `Strings.Lower` lower-cases ASCII only, and `LexCompare` stands in for `localeCompare`'s locale collation, as code-point order.
- PRsRouter.ListPRs: describes `list_prs` as if every `PRInfo` were built. `models.py:18` declares `changes_requested_by: list[str]` with no default, and `prs.py:82-96` never passes it, so pydantic rejects the construction and `list_prs` as written raises as soon as one pull request passes the filters. The model's `PRInfo` has no such field.
- The React rendering: badges, date formatting and the filter widgets. `Dashboard.tsx`'s wiring is left out too, except the refresh after a successful cache clear (`UsePRs.RefreshAfterClearCache`). The remount of the table while a fetch is loading (`Dashboard.tsx:71-76`), which resets its page and sort, is not modelled.
- The wire names of the variants (`Status`, `HumanReview`). They are only named by `PRModel.StatusName` and `HumanReviewName`; `NoReview` travels as "none".
- PRSort.DescendingReversesWhenKeysDistinct: the claim that a second click reverses the list needs distinct keys. With ties it does not hold, and `PRSort.TiesSurviveSecondClick` shows why.
