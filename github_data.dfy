/**
 * What the GitHub service reads from GitHub, and the two reductions its loops
 * share: the stream of items a paginated listing serves, and the ordered
 * deduplication of an insertion-ordered `dict`.
 */
module GitHubData {
  import opened Wrappers

  /**
   * The fields of a pull-request object that are read. A missing string field
   * is "", `merged_at: null` is `None`, labels are their names and requested
   * reviewers their logins.
   */
  datatype RawPR = RawPR(
    number: int,
    title: string,
    login: string,
    createdAt: string,
    htmlUrl: string,
    state: string,
    mergedAt: Option<string>,
    labels: seq<string>,
    requestedReviewers: seq<string>)

  /** An issue comment; a missing login or body is "". */
  datatype Comment = Comment(login: string, body: string)

  /** A pull-request review; a missing login or state is "". */
  datatype Review = Review(login: string, state: string)

  /**
   * The pages GitHub answers with, page 1 first: pulls by (repository, state),
   * comments and reviews by (repository, number). A request past the given
   * pages, or for a key not in a map, is answered with an empty page.
   */
  datatype GitHub = GitHub(
    pulls: map<(string, string), seq<seq<RawPR>>>,
    comments: map<(string, int), seq<seq<Comment>>>,
    reviews: map<(string, int), seq<seq<Review>>>)

  function PullPages(gh: GitHub, repo: string, state: string): seq<seq<RawPR>>
  {
    if (repo, state) in gh.pulls then gh.pulls[(repo, state)] else []
  }

  function CommentPages(gh: GitHub, repo: string, number: int): seq<seq<Comment>>
  {
    if (repo, number) in gh.comments then gh.comments[(repo, number)] else []
  }

  function ReviewPages(gh: GitHub, repo: string, number: int): seq<seq<Review>>
  {
    if (repo, number) in gh.reviews then gh.reviews[(repo, number)] else []
  }

  /** The `per_page` every listing asks for. */
  const PerPage: nat := 100

  /** The answer to the request for page `i + 1`. */
  function PageAt<T>(pages: seq<seq<T>>, i: nat): seq<T>
  {
    if i < |pages| then pages[i] else []
  }

  /** Whether the client asks for the page after a page with these items. */
  predicate AsksForMore<T>(page: seq<T>)
  {
    |page| >= PerPage
  }

  /**
   * The items a `while True` page loop reads from page `i + 1` on: pages up to
   * and including the first empty or short one.
   */
  function ServedFrom<T>(pages: seq<seq<T>>, i: nat): seq<T>
    decreases |pages| - i
  {
    if i >= |pages| || pages[i] == [] then []
    else if !AsksForMore(pages[i]) then pages[i]
    else pages[i] + ServedFrom(pages, i + 1)
  }

  function Served<T>(pages: seq<seq<T>>): seq<T>
  {
    ServedFrom(pages, 0)
  }

  /** The pages served from page `i + 1` on are that page and, if it is full, those after it. */
  lemma ServedFromUnfold<T>(pages: seq<seq<T>>, i: nat)
    ensures ServedFrom(pages, i) ==
            PageAt(pages, i) + (if AsksForMore(PageAt(pages, i)) then ServedFrom(pages, i + 1) else [])
  {
  }

  /**
   * A loop that has read `seen` and is about to read page `i + 1` has read
   * everything once that page is empty or short, and otherwise goes on with
   * the page after it.
   */
  lemma ServedAdvance<T>(pages: seq<seq<T>>, i: nat, seen: seq<T>)
    requires seen + ServedFrom(pages, i) == Served(pages)
    ensures AsksForMore(PageAt(pages, i)) ==> (seen + PageAt(pages, i)) + ServedFrom(pages, i + 1) == Served(pages)
    ensures !AsksForMore(PageAt(pages, i)) ==> seen + PageAt(pages, i) == Served(pages)
  {
    ServedFromUnfold(pages, i);
    if AsksForMore(PageAt(pages, i)) {
      assert (seen + PageAt(pages, i)) + ServedFrom(pages, i + 1) == seen + (PageAt(pages, i) + ServedFrom(pages, i + 1));
    } else {
      assert PageAt(pages, i) + [] == PageAt(pages, i);
    }
  }

  /** One more item of a page read after `seen`. */
  lemma ReadOneMore<T>(seen: seq<T>, page: seq<T>, j: nat)
    requires j < |page|
    ensures seen + page[..j + 1] == (seen + page[..j]) + [page[j]]
  {
    assert page[..j + 1] == page[..j] + [page[j]];
  }

  /** Once a page is empty or short, nothing after it is ever served. */
  lemma {:induction false} ServedStopsAtShortPage<T>(pages: seq<seq<T>>, i: nat, k: nat)
    requires i < k <= |pages| && !AsksForMore(PageAt(pages, k - 1))
    ensures ServedFrom(pages, i) == ServedFrom(pages[..k], i)
    decreases k - i
  {
    if i + 1 < k {
      ServedStopsAtShortPage(pages, i + 1, k);
    }
  }

  predicate NoDuplicates(s: seq<string>)
  {
    forall i, j :: 0 <= i < j < |s| ==> s[i] != s[j]
  }

  /**
   * `list(dict.fromkeys(s))`: the distinct elements of `s`, each kept where it
   * first appears.
   */
  function Dedup(s: seq<string>): (d: seq<string>)
    ensures forall x :: x in d <==> x in s
    ensures NoDuplicates(d)
    ensures |d| <= |s|
  {
    if s == [] then []
    else
      var d := Dedup(s[..|s| - 1]);
      assert s == s[..|s| - 1] + [s[|s| - 1]];
      if s[|s| - 1] in d then d else d + [s[|s| - 1]]
  }

  /** The index of the first occurrence of `x` in `s`. */
  function FirstIndex(s: seq<string>, x: string): (i: nat)
    requires x in s
    ensures i < |s| && s[i] == x && x !in s[..i]
  {
    if s[0] == x then 0 else 1 + FirstIndex(s[1..], x)
  }

  lemma {:induction false} FirstIndexPrefix(s: seq<string>, t: seq<string>, x: string)
    requires x in s
    ensures FirstIndex(s + t, x) == FirstIndex(s, x)
  {
    if s[0] != x {
      assert (s + t)[1..] == s[1..] + t;
      FirstIndexPrefix(s[1..], t, x);
    }
  }

  /** `Dedup` keeps first-appearance order. */
  lemma {:induction false} DedupFirstAppearanceOrder(s: seq<string>)
    ensures forall i, j :: 0 <= i < j < |Dedup(s)| ==> FirstIndex(s, Dedup(s)[i]) < FirstIndex(s, Dedup(s)[j])
  {
    if s != [] {
      var s' := s[..|s| - 1];
      var x := s[|s| - 1];
      assert s == s' + [x];
      DedupFirstAppearanceOrder(s');
      var d' := Dedup(s');
      forall y | y in s' ensures FirstIndex(s, y) == FirstIndex(s', y) {
        FirstIndexPrefix(s', [x], y);
      }
      var d := Dedup(s);
      assert x in d' ==> d == d';
      assert x !in d' ==> d == d' + [x];
      forall i, j | 0 <= i < j < |d| ensures FirstIndex(s, d[i]) < FirstIndex(s, d[j]) {
        assert d[i] == d'[i] && d'[i] in s';
        if j < |d'| {
          assert d[j] == d'[j] && d'[j] in s';
          assert FirstIndex(s', d'[i]) < FirstIndex(s', d'[j]);
        } else {
          assert d[j] == x && x !in s';
          assert FirstIndex(s', d'[i]) < |s'|;
        }
      }
    }
  }

  /** Every element of `r` occurs in `t`, and `r` lists them in the order of their first occurrences in `t`. */
  predicate FirstOrdered(r: seq<string>, t: seq<string>)
  {
    (forall i :: 0 <= i < |r| ==> r[i] in t) &&
    forall i, j :: 0 <= i < j < |r| ==> r[i] in t && r[j] in t && FirstIndex(t, r[i]) < FirstIndex(t, r[j])
  }

  /** Deduplicating a longer list keeps the deduplicated shorter list in front. */
  lemma {:induction false} DedupPrefix(a: seq<string>, b: seq<string>)
    ensures |Dedup(a)| <= |Dedup(a + b)| && Dedup(a + b)[..|Dedup(a)|] == Dedup(a)
    decreases |b|
  {
    if b == [] {
      assert a + b == a;
    } else {
      var b' := b[..|b| - 1];
      assert (a + b)[..|a + b| - 1] == a + b';
      DedupPrefix(a, b');
    }
  }

  /** A list without duplicates is its own deduplication. */
  lemma {:induction false} DedupDistinct(s: seq<string>)
    requires NoDuplicates(s)
    ensures Dedup(s) == s
  {
    if s != [] {
      var s' := s[..|s| - 1];
      DedupDistinct(s');
      assert s[|s| - 1] !in s';
      assert s == s' + [s[|s| - 1]];
    }
  }
}
