/**
 * The repository record and `fetchRepositories`: the paginated listing of a
 * user's repositories. The HTTP exchange for one page is abstracted into a
 * page source, a function from page number to what came back for that page.
 */
module GitHub {
  import opened Wrappers

  /** `Repository`; timestamps are plain integers (later is larger). */
  datatype Repository = Repository(
    name: string,
    htmlUrl: string,
    description: string,
    language: string,
    fork: bool,
    createdAt: int,
    updatedAt: int,
    pushedAt: int,
    homepage: string,
    forksCount: int,
    stargazers: int,
    source: Option<string>)

  /** What requesting one page produced. `decoded` is what the JSON decoder made of the body. */
  datatype Exchange =
    | RequestFailed(message: string)
    | Reply(statusCode: int, body: string, decoded: Result<seq<Repository>, string>)

  /** Why the whole fetch failed. */
  datatype FetchError =
    | Transport(message: string)
    | BadStatus(statusCode: int, body: string)
    | Decode(message: string)

  const StatusOK := 200
  const PerPage := 100

  /** The loop goes on past this page: it is a 200 reply holding a full page of records. */
  predicate Continues(x: Exchange) {
    x.Reply? && x.statusCode == StatusOK && x.decoded.Success? && |x.decoded.value| >= PerPage
  }

  /** The records of pages 1 .. n-1, in page order. */
  function Accumulated(source: nat -> Exchange, n: nat): seq<Repository>
    requires forall p :: 1 <= p < n ==> Continues(source(p))
  {
    if n <= 1 then []
    else
      assert Continues(source(n - 1));
      Accumulated(source, n - 1) + source(n - 1).decoded.value
  }

  /** The first page at or after `from` on which the loop stops; `bound` is a page known to stop it. */
  function FirstStop(source: nat -> Exchange, from: nat, bound: nat): (n: nat)
    requires from <= bound && !Continues(source(bound))
    ensures from <= n <= bound && !Continues(source(n))
    ensures forall p :: from <= p < n ==> Continues(source(p))
    decreases bound - from
  {
    if !Continues(source(from)) then from else FirstStop(source, from + 1, bound)
  }

  /** How the last requested page ends the fetch, given the records of the pages before it. */
  function Finish(last: Exchange, earlier: seq<Repository>): Result<seq<Repository>, FetchError> {
    match last
    case RequestFailed(m) => Failure(Transport(m))
    case Reply(code, body, decoded) =>
      if code != StatusOK then Failure(BadStatus(code, body))
      else match decoded
        case Failure(m) => Failure(Decode(m))
        case Success(repos) => Success(earlier + repos)
  }

  /** What `fetchRepositories` returns: pages 1, 2, ... up to the first page that stops the loop. */
  function FetchAll(source: nat -> Exchange, bound: nat): Result<seq<Repository>, FetchError>
    requires 1 <= bound && !Continues(source(bound))
  {
    var n := FirstStop(source, 1, bound);
    Finish(source(n), Accumulated(source, n))
  }

  /**
   * `fetchRepositories`. `requested` lists the page numbers asked for, in order.
   * The ghost `bound` is a page on which the listing is known to stop, so the loop terminates.
   */
  method FetchRepositories(source: nat -> Exchange, ghost bound: nat)
    returns (r: Result<seq<Repository>, FetchError>, ghost requested: seq<nat>)
    requires 1 <= bound && !Continues(source(bound))
    ensures |requested| == FirstStop(source, 1, bound)
    ensures forall k :: 0 <= k < |requested| ==> requested[k] == k + 1
    ensures r == FetchAll(source, bound)
  {
    var allRepos: seq<Repository> := [];
    var page := 1;
    requested := [];
    var more := true;
    while more
      invariant 1 <= page <= bound
      invariant forall p :: 1 <= p < page ==> Continues(source(p))
      invariant forall k :: 0 <= k < |requested| ==> requested[k] == k + 1
      invariant more ==> allRepos == Accumulated(source, page) && |requested| == page - 1
      invariant !more ==> |requested| == page == FirstStop(source, 1, bound)
      invariant !more ==> Success(allRepos) == FetchAll(source, bound)
      decreases bound - page, more
    {
      requested := requested + [page];
      var x := source(page);
      if x.RequestFailed? {
        return Failure(Transport(x.message)), requested;
      }
      if x.statusCode != StatusOK {
        return Failure(BadStatus(x.statusCode, x.body)), requested;
      }
      if x.decoded.Failure? {
        return Failure(Decode(x.decoded.error)), requested;
      }
      var repos := x.decoded.value;
      assert Finish(x, allRepos) == Success(allRepos + repos);
      allRepos := allRepos + repos;
      if |repos| < PerPage {
        more := false;
      } else {
        page := page + 1;
      }
    }
    r := Success(allRepos);
  }

  /** A fetch succeeds exactly when the page that stops it is a readable 200 reply; the result is every page up to and including that one. */
  lemma FetchAllSuccess(source: nat -> Exchange, bound: nat)
    requires 1 <= bound && !Continues(source(bound))
    ensures var n := FirstStop(source, 1, bound);
      && (FetchAll(source, bound).Success? <==>
           source(n).Reply? && source(n).statusCode == StatusOK && source(n).decoded.Success?)
      && (FetchAll(source, bound).Success? ==>
           && |source(n).decoded.value| < PerPage
           && FetchAll(source, bound).value == Accumulated(source, n) + source(n).decoded.value)
  {
  }

  /** A non-200 reply on any page the loop reaches fails the whole fetch with that status, and no records are returned. */
  lemma FetchAllBadStatus(source: nat -> Exchange, bound: nat, p: nat)
    requires 1 <= bound && !Continues(source(bound))
    requires 1 <= p && forall q :: 1 <= q < p ==> Continues(source(q))
    requires source(p).Reply? && source(p).statusCode != StatusOK
    ensures FetchAll(source, bound) == Failure(BadStatus(source(p).statusCode, source(p).body))
  {
  }

  /** The result does not depend on which stopping page was used to bound the loop. */
  lemma FetchAllBoundIrrelevant(source: nat -> Exchange, b1: nat, b2: nat)
    requires 1 <= b1 && !Continues(source(b1))
    requires 1 <= b2 && !Continues(source(b2))
    ensures FirstStop(source, 1, b1) == FirstStop(source, 1, b2)
    ensures FetchAll(source, b1) == FetchAll(source, b2)
  {
  }

  /** A record is accumulated exactly when some earlier page holds it. */
  lemma {:induction false} AccumulatedMembers(source: nat -> Exchange, n: nat, r: Repository)
    requires forall p :: 1 <= p < n ==> Continues(source(p))
    ensures r in Accumulated(source, n) <==>
      exists p :: 1 <= p < n && Continues(source(p)) && r in source(p).decoded.value
  {
    if n > 1 {
      AccumulatedMembers(source, n - 1, r);
      assert Continues(source(n - 1));
    }
  }

  /** Every full page contributes at least `PerPage` records. */
  lemma {:induction false} AccumulatedLength(source: nat -> Exchange, n: nat)
    requires forall p :: 1 <= p < n ==> Continues(source(p))
    ensures n >= 1 ==> |Accumulated(source, n)| >= PerPage * (n - 1)
  {
    if n > 1 {
      AccumulatedLength(source, n - 1);
      assert Continues(source(n - 1));
    }
  }
}
