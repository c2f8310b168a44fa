/**
 * The browser-side API client: the query strings of the list and authors
 * requests, and the outcome of a response, with the error message built for
 * a non-ok status.
 */
module ApiClient {
  import opened Wrappers
  import opened Strings

  /** The parameter names the client sends. */
  datatype Param = Since | Until | Repo | Author | Status | ShowIgnored

  /** The name of a parameter in the query string. */
  function ParamName(p: Param): string
  {
    match p
    case Since => "since"
    case Until => "until"
    case Repo => "repo"
    case Author => "author"
    case Status => "status"
    case ShowIgnored => "show_ignored"
  }

  /** A `URLSearchParams` object: its entries in order. */
  type Query = seq<(Param, string)>

  function Keys(q: Query): (ks: seq<Param>)
    ensures |ks| == |q|
  {
    if q == [] then [] else [q[0].0] + Keys(q[1..])
  }

  /** `URLSearchParams.get`: the value of the first entry with key `k`. */
  function Get(q: Query, k: Param): Option<string>
  {
    if q == [] then None else if q[0].0 == k then Some(q[0].1) else Get(q[1..], k)
  }

  predicate NoDuplicateKeys(q: Query)
  {
    forall i, j :: 0 <= i < j < |q| ==> q[i].0 != q[j].0
  }

  /** The entries of `q` without key `k`. */
  function Without(q: Query, k: Param): Query
  {
    if q == [] then [] else (if q[0].0 == k then [] else [q[0]]) + Without(q[1..], k)
  }

  /**
   * `URLSearchParams.set`: the first entry with key `k` gets value `v` and the
   * other entries with key `k` go; with no entry for `k`, one is appended.
   */
  function SetParam(q: Query, k: Param, v: string): (r: Query)
    ensures Get(r, k) == Some(v)
    ensures forall k' :: k' != k ==> Get(r, k') == Get(q, k')
    ensures k !in Keys(q) ==> r == q + [(k, v)]
  {
    if k !in Keys(q) then
      AppendGet(q, k, v);
      q + [(k, v)]
    else if q[0].0 == k then
      WithoutGet(q[1..], k);
      [(k, v)] + Without(q[1..], k)
    else
      [q[0]] + SetParam(q[1..], k, v)
  }

  lemma {:induction false} AppendGet(q: Query, k: Param, v: string)
    requires k !in Keys(q)
    ensures Get(q + [(k, v)], k) == Some(v)
    ensures forall k' :: k' != k ==> Get(q + [(k, v)], k') == Get(q, k')
  {
    if q != [] {
      assert (q + [(k, v)])[1..] == q[1..] + [(k, v)];
      assert Keys(q) == [q[0].0] + Keys(q[1..]);
      AppendGet(q[1..], k, v);
    } else {
      assert ([] + [(k, v)])[1..] == [];
    }
  }

  lemma WithoutGet(q: Query, k: Param)
    ensures forall k' :: k' != k ==> Get(Without(q, k), k') == Get(q, k')
  {
    forall k' | k' != k ensures Get(Without(q, k), k') == Get(q, k') {
      WithoutGetAt(q, k, k');
    }
  }

  lemma {:induction false} WithoutGetAt(q: Query, k: Param, k': Param)
    requires k' != k
    ensures Get(Without(q, k), k') == Get(q, k')
  {
    if q != [] {
      WithoutGetAt(q[1..], k, k');
      if q[0].0 != k {
        assert Without(q, k) == [q[0]] + Without(q[1..], k);
      } else {
        assert Without(q, k) == Without(q[1..], k);
      }
    }
  }

  lemma {:induction false} KeysAppend(q: Query, k: Param, v: string)
    ensures Keys(q + [(k, v)]) == Keys(q) + [k]
  {
    if q != [] {
      assert (q + [(k, v)])[1..] == q[1..] + [(k, v)];
      KeysAppend(q[1..], k, v);
    }
  }

  lemma {:induction false} KeysAt(q: Query, i: nat)
    requires i < |q|
    ensures Keys(q)[i] == q[i].0
  {
    if i > 0 {
      KeysAt(q[1..], i - 1);
    }
  }

  lemma AppendFreshKeepsKeysDistinct(q: Query, k: Param, v: string)
    requires NoDuplicateKeys(q) && k !in Keys(q)
    ensures NoDuplicateKeys(q + [(k, v)])
  {
    forall i | 0 <= i < |q| ensures q[i].0 != k {
      KeysAt(q, i);
    }
  }

  /** The value sent for the `show_ignored` flag: "true" when it is set. */
  function FlagText(b: Option<bool>): Option<string>
  {
    if b == Some(true) then Some("true") else None
  }

  /** The entry `if (value) qs.set(k, value)` adds to a query without key `k`. */
  function Entry(k: Param, v: Option<string>): Query
  {
    if Truthy(v) then [(k, v.value)] else []
  }

  /** The list request's query as a value: the date range, then each optional parameter given. */
  function ListQuery(since: string, until: string, repo: Option<string>, author: Option<string>,
                     status: Option<string>, showIgnored: Option<bool>): Query
  {
    [(Since, since), (Until, until)] + Entry(Repo, repo) + Entry(Author, author)
      + Entry(Status, status) + Entry(ShowIgnored, FlagText(showIgnored))
  }

  /** The position of each parameter in the order the client sets them. */
  function Rank(k: Param): nat
  {
    match k
    case Since => 0
    case Until => 1
    case Repo => 2
    case Author => 3
    case Status => 4
    case ShowIgnored => 5
  }

  /** The keys come in the order the client sets them, each at most once. */
  predicate Ranked(q: Query)
  {
    forall i, j :: 0 <= i < j < |q| ==> Rank(q[i].0) < Rank(q[j].0)
  }

  /** Every key of `q` is set before `k`. */
  predicate Below(q: Query, k: Param)
  {
    q == [] || Rank(q[|q| - 1].0) < Rank(k)
  }

  lemma RankedDistinct(q: Query)
    requires Ranked(q)
    ensures NoDuplicateKeys(q)
  {
  }

  lemma RankedAppend(q: Query, k: Param, v: string)
    requires Ranked(q) && Below(q, k)
    ensures k !in Keys(q) && NoDuplicateKeys(q)
    ensures Ranked(q + [(k, v)])
  {
    if k in Keys(q) {
      var i :| 0 <= i < |Keys(q)| && Keys(q)[i] == k;
      KeysAt(q, i);
      assert false;
    }
  }

  /**
   * The query of the list request: `since` and `until` first and always, then
   * `repo`, `author` and `status` exactly when given and not empty, then
   * `show_ignored=true` exactly when the flag is set.
   */
  method GetPRsQuery(since: string, until: string, repo: Option<string>, author: Option<string>,
                     status: Option<string>, showIgnored: Option<bool>) returns (qs: Query)
    ensures |qs| >= 2 && qs[0] == (Since, since) && qs[1] == (Until, until)
    ensures Get(qs, Repo) == (if Truthy(repo) then Some(repo.value) else None)
    ensures Get(qs, Author) == (if Truthy(author) then Some(author.value) else None)
    ensures Get(qs, Status) == (if Truthy(status) then Some(status.value) else None)
    ensures Get(qs, ShowIgnored) == (if showIgnored == Some(true) then Some("true") else None)
    ensures Keys(qs) == [Since, Until] + (if Truthy(repo) then [Repo] else [])
                        + (if Truthy(author) then [Author] else [])
                        + (if Truthy(status) then [Status] else [])
                        + (if showIgnored == Some(true) then [ShowIgnored] else [])
    ensures Ranked(qs) && NoDuplicateKeys(qs)
  {
    qs := [];
    qs := SetNew(qs, Since, since);
    qs := SetNew(qs, Until, until);
    assert qs == [(Since, since), (Until, until)];
    qs := SetIfTruthy(qs, Repo, repo);
    qs := SetIfTruthy(qs, Author, author);
    qs := SetIfTruthy(qs, Status, status);
    qs := SetIfTruthy(qs, ShowIgnored, FlagText(showIgnored));
    assert qs == ListQuery(since, until, repo, author, status, showIgnored);
    ListQueryKeys(since, until, repo, author, status, showIgnored);
    ListQueryGet(since, until, repo, author, status, showIgnored);
    RankedDistinct(qs);
  }

  /** `if (value) qs.set(k, value)` for a key later than every key present. */
  method SetIfTruthy(q: Query, k: Param, v: Option<string>) returns (r: Query)
    requires Ranked(q) && Below(q, k)
    ensures r == q + Entry(k, v) && Ranked(r)
    ensures forall k' :: Rank(k) < Rank(k') ==> Below(r, k')
  {
    r := q;
    if Truthy(v) {
      r := SetNew(q, k, v.value);
    }
  }

  /** `qs.set(k, v)` for a key later than every key present: the entry is appended. */
  method SetNew(q: Query, k: Param, v: string) returns (r: Query)
    requires Ranked(q) && Below(q, k)
    ensures r == q + [(k, v)] && Ranked(r)
    ensures forall k' :: Rank(k) < Rank(k') ==> Below(r, k')
  {
    RankedAppend(q, k, v);
    AppendAndCheck(q, k, v);
    r := SetParam(q, k, v);
  }

  lemma {:induction false} KeysConcat(a: Query, b: Query)
    ensures Keys(a + b) == Keys(a) + Keys(b)
  {
    if a != [] {
      assert (a + b)[1..] == a[1..] + b;
      KeysConcat(a[1..], b);
    } else {
      assert a + b == b;
    }
  }

  lemma {:induction false} GetConcat(a: Query, b: Query, k: Param)
    ensures Get(a + b, k) == if Get(a, k).Some? then Get(a, k) else Get(b, k)
  {
    if a != [] {
      assert (a + b)[1..] == a[1..] + b;
      GetConcat(a[1..], b, k);
    } else {
      assert a + b == b;
    }
  }

  lemma ListQueryKeys(since: string, until: string, repo: Option<string>, author: Option<string>,
                      status: Option<string>, showIgnored: Option<bool>)
    ensures Keys(ListQuery(since, until, repo, author, status, showIgnored))
              == [Since, Until] + (if Truthy(repo) then [Repo] else [])
                 + (if Truthy(author) then [Author] else [])
                 + (if Truthy(status) then [Status] else [])
                 + (if showIgnored == Some(true) then [ShowIgnored] else [])
  {
    var q0: Query := [(Since, since), (Until, until)];
    var q1 := q0 + Entry(Repo, repo);
    var q2 := q1 + Entry(Author, author);
    var q3 := q2 + Entry(Status, status);
    assert Keys(q0) == [Since, Until] by {
      assert q0[1..] == [(Until, until)] && q0[1..][1..] == [];
    }
    EntryKeys(Repo, repo);
    EntryKeys(Author, author);
    EntryKeys(Status, status);
    EntryKeys(ShowIgnored, FlagText(showIgnored));
    KeysConcat(q0, Entry(Repo, repo));
    KeysConcat(q1, Entry(Author, author));
    KeysConcat(q2, Entry(Status, status));
    KeysConcat(q3, Entry(ShowIgnored, FlagText(showIgnored)));
  }

  lemma EntryKeys(k: Param, v: Option<string>)
    ensures Keys(Entry(k, v)) == if Truthy(v) then [k] else []
  {
    if Truthy(v) {
      assert Entry(k, v)[1..] == [];
    }
  }

  lemma ListQueryGet(since: string, until: string, repo: Option<string>, author: Option<string>,
                     status: Option<string>, showIgnored: Option<bool>)
    ensures var q := ListQuery(since, until, repo, author, status, showIgnored);
            Get(q, Repo) == (if Truthy(repo) then Some(repo.value) else None) &&
            Get(q, Author) == (if Truthy(author) then Some(author.value) else None) &&
            Get(q, Status) == (if Truthy(status) then Some(status.value) else None) &&
            Get(q, ShowIgnored) == (if showIgnored == Some(true) then Some("true") else None)
  {
    var q0: Query := [(Since, since), (Until, until)];
    var q1 := q0 + Entry(Repo, repo);
    var q2 := q1 + Entry(Author, author);
    var q3 := q2 + Entry(Status, status);
    var e4 := Entry(ShowIgnored, FlagText(showIgnored));
    forall k | Rank(k) >= 2
      ensures Get(q3 + e4, k) == if Get(Entry(Repo, repo), k).Some? then Get(Entry(Repo, repo), k)
                                 else if Get(Entry(Author, author), k).Some? then Get(Entry(Author, author), k)
                                 else if Get(Entry(Status, status), k).Some? then Get(Entry(Status, status), k)
                                 else Get(e4, k)
    {
      assert q0[1..] == [(Until, until)] && q0[1..][1..] == [];
      assert Get(q0[1..][1..], k) == None;
      assert Get(q0[1..], k) == None;
      assert Get(q0, k) == None;
      GetConcat(q0, Entry(Repo, repo), k);
      GetConcat(q1, Entry(Author, author), k);
      GetConcat(q2, Entry(Status, status), k);
      GetConcat(q3, e4, k);
    }
    GetEntry(Repo, repo);
    GetEntry(Author, author);
    GetEntry(Status, status);
    GetEntry(ShowIgnored, FlagText(showIgnored));
  }

  lemma GetEntry(k: Param, v: Option<string>)
    ensures forall k' :: Get(Entry(k, v), k') == if Truthy(v) && k == k' then Some(v.value) else None
  {
    if Truthy(v) {
      assert Entry(k, v)[1..] == [];
    }
  }

  /** Setting a key not yet present appends it and keeps the keys distinct. */
  lemma AppendAndCheck(q: Query, k: Param, v: string)
    requires NoDuplicateKeys(q) && k !in Keys(q)
    ensures SetParam(q, k, v) == q + [(k, v)]
    ensures Keys(SetParam(q, k, v)) == Keys(q) + [k]
    ensures NoDuplicateKeys(SetParam(q, k, v))
  {
    KeysAppend(q, k, v);
    AppendFreshKeepsKeysDistinct(q, k, v);
  }

  /** The query of the authors request: the date range and nothing else. */
  function GetAuthorsQuery(since: string, until: string): (qs: Query)
    ensures Keys(qs) == [Since, Until] && NoDuplicateKeys(qs)
    ensures Get(qs, Since) == Some(since) && Get(qs, Until) == Some(until)
  {
    [(Since, since), (Until, until)]
  }

  /** What `fetch` produced: a response, or a rejection (network failure) with its message. */
  datatype Outcome<T> = Response(status: nat, statusText: string, body: T) | NetworkFailure(message: string)

  /** `Response.ok`: a status in the range 200-299. */
  predicate Ok(status: nat)
  {
    200 <= status <= 299
  }

  function Digit(d: nat): char
    requires d < 10
  {
    "0123456789"[d]
  }

  predicate IsDigit(c: char)
  {
    '0' <= c <= '9'
  }

  /** The decimal text of `n`, as a template literal writes a number. */
  function NatToString(n: nat): (s: string)
    ensures |s| > 0 && forall i :: 0 <= i < |s| ==> IsDigit(s[i])
  {
    if n < 10 then [Digit(n)] else NatToString(n / 10) + [Digit(n % 10)]
  }

  /** The message carried by the error a non-ok response raises. */
  function ApiErrorMessage(status: nat, statusText: string): string
  {
    "API error: " + NatToString(status) + " " + statusText
  }

  /** `fetchJson`: the parsed body of an ok response, an error otherwise. */
  function FetchJson<T>(o: Outcome<T>): (r: Result<T, string>)
    ensures o.Response? && Ok(o.status) ==> r == Success(o.body)
    ensures o.Response? && !Ok(o.status) ==> r == Failure(ApiErrorMessage(o.status, o.statusText))
    ensures o.NetworkFailure? ==> r == Failure(o.message)
  {
    match o
    case NetworkFailure(msg) => Failure(msg)
    case Response(status, text, body) =>
      if Ok(status) then Success(body) else Failure(ApiErrorMessage(status, text))
  }

  /** `clearCache`: the response body is not read; a non-ok status fails with the same message. */
  function ClearCache<T>(o: Outcome<T>): (r: Result<(), string>)
    ensures r.Success? <==> o.Response? && Ok(o.status)
    ensures r.Failure? ==> FetchJson(o).Failure? && r.error == FetchJson(o).error
  {
    match o
    case NetworkFailure(msg) => Failure(msg)
    case Response(status, text, _) =>
      if Ok(status) then Success(()) else Failure(ApiErrorMessage(status, text))
  }

  function DigitValue(c: char): nat
  {
    if IsDigit(c) then (c as int - '0' as int) as nat else 0
  }

  /** The number a string of decimal digits denotes. */
  function ParseDigits(s: string): nat
  {
    if s == [] then 0 else 10 * ParseDigits(s[..|s| - 1]) + DigitValue(s[|s| - 1])
  }

  /** Length of the run of digits at the start of `s`. */
  function DigitRun(s: string): (n: nat)
    ensures n <= |s| && forall i :: 0 <= i < n ==> IsDigit(s[i])
    ensures n < |s| ==> !IsDigit(s[n])
  {
    if s != [] && IsDigit(s[0]) then 1 + DigitRun(s[1..]) else 0
  }

  /** Reads status and status text back from an error message, if it has that form. */
  function ParseApiError(msg: string): Option<(nat, string)>
  {
    var head := "API error: ";
    if !IsPrefix(head, msg) then None
    else
      var rest := msg[|head|..];
      var n := DigitRun(rest);
      if n == 0 || n == |rest| || rest[n] != ' ' then None
      else Some((ParseDigits(rest[..n]), rest[n + 1..]))
  }

  lemma {:induction false} ParseNatToString(n: nat)
    ensures ParseDigits(NatToString(n)) == n
  {
    if n >= 10 {
      ParseNatToString(n / 10);
      var s := NatToString(n / 10) + [Digit(n % 10)];
      assert s[..|s| - 1] == NatToString(n / 10);
    }
  }

  lemma {:induction false} DigitRunOfDigits(d: string, t: string)
    requires forall i :: 0 <= i < |d| ==> IsDigit(d[i])
    ensures DigitRun(d + " " + t) == |d|
  {
    if d != [] {
      assert (d + " " + t)[1..] == d[1..] + " " + t;
      DigitRunOfDigits(d[1..], t);
    }
  }

  /**
   * The message determines the response it came from: status and status text
   * read back unchanged, whatever the text holds.
   */
  lemma ApiErrorMessageRoundTrip(status: nat, statusText: string)
    ensures ParseApiError(ApiErrorMessage(status, statusText)) == Some((status, statusText))
  {
    var head := "API error: ";
    var digits := NatToString(status);
    var msg := ApiErrorMessage(status, statusText);
    assert msg == head + (digits + " " + statusText);
    var rest := msg[|head|..];
    assert rest == digits + " " + statusText;
    DigitRunOfDigits(digits, statusText);
    assert rest[..|digits|] == digits;
    assert rest[|digits| + 1..] == statusText;
    ParseNatToString(status);
  }

  /** A 404 reads "API error: 404 Not Found". */
  lemma NotFoundMessage()
    ensures FetchJson<int>(Response(404, "Not Found", 0)) == Failure("API error: 404 Not Found")
  {
    assert NatToString(4) == "4" && NatToString(40) == "40";
    assert NatToString(404) == "404";
    assert ApiErrorMessage(404, "Not Found") == "API error: 404 Not Found";
  }
}
