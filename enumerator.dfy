/** The repository enumerator: count the organization's repositories, request
    the listing pages 1 .. total/100 + 1, and keep the names of the repositories
    that are neither archived, disabled nor templates, in page order. */
module Enumerator {
  import opened GitHub
  import RateLimit

  const PER_PAGE := 100

  /** The filter applied to each listing entry. */
  predicate Qualifies(r: RepoRecord) {
    !r.archived && !r.disabled && !r.isTemplate
  }

  /** The names of the qualifying records, in the records' order. */
  function Qualifying(records: seq<RepoRecord>): seq<string> {
    if records == [] then []
    else
      var last := records[|records| - 1];
      Qualifying(records[..|records| - 1]) + (if Qualifies(last) then [last.name] else [])
  }

  /** A name is kept exactly when some qualifying record carries it. */
  lemma {:induction false} QualifyingMembership(records: seq<RepoRecord>, name: string)
    ensures name in Qualifying(records) <==>
      exists k :: 0 <= k < |records| && Qualifies(records[k]) && records[k].name == name
  {
    if records != [] {
      var init := records[..|records| - 1];
      QualifyingMembership(init, name);
      if exists k :: 0 <= k < |records| && Qualifies(records[k]) && records[k].name == name {
        var k :| 0 <= k < |records| && Qualifies(records[k]) && records[k].name == name;
        if k < |records| - 1 {
          assert init[k] == records[k];
        }
      }
      if name in Qualifying(init) {
        var k :| 0 <= k < |init| && Qualifies(init[k]) && init[k].name == name;
        assert records[k] == init[k];
      }
    }
  }

  /** Filtering keeps order: the names of a concatenation are the names of the
      first part followed by the names of the second. */
  lemma {:induction false} QualifyingAppend(a: seq<RepoRecord>, b: seq<RepoRecord>)
    ensures Qualifying(a + b) == Qualifying(a) + Qualifying(b)
  {
    if b == [] {
      assert a + b == a;
    } else {
      var init := b[..|b| - 1];
      QualifyingAppend(a, init);
      assert (a + b)[..|a + b| - 1] == a + init;
    }
  }

  /** Every qualifying record contributes one name and no other record does. */
  lemma {:induction false} QualifyingLength(records: seq<RepoRecord>)
    ensures |Qualifying(records)| <= |records|
    ensures |Qualifying(records)| == |records| <==> forall k :: 0 <= k < |records| ==> Qualifies(records[k])
  {
    if records != [] {
      var init := records[..|records| - 1];
      QualifyingLength(init);
      if forall k :: 0 <= k < |records| ==> Qualifies(records[k]) {
        assert forall k :: 0 <= k < |init| ==> init[k] == records[k];
      }
    }
  }

  /** The organization's repository total: private plus public. */
  function TotalRepos(info: OrgInfo): int {
    info.ownedPrivateRepos + info.publicRepos
  }

  /** The last listing page requested for `total` repositories
      (pages run from 1 to total // 100 + 1 inclusive). */
  function LastPage(total: int): (last: int)
    ensures total >= 0 ==> 1 <= last && (last - 1) * PER_PAGE <= total < last * PER_PAGE
  {
    total / PER_PAGE + 1
  }

  /** The fewest pages of 100 that hold `total` repositories. */
  function PagesNeeded(total: nat): nat {
    (total + PER_PAGE - 1) / PER_PAGE
  }

  /** PagesNeeded is the least page count whose pages hold every repository. */
  lemma PagesNeededIsLeast(total: nat)
    ensures PagesNeeded(total) * PER_PAGE >= total
    ensures forall n: nat :: n * PER_PAGE >= total ==> n >= PagesNeeded(total)
  {
  }

  /** The requested pages cover every repository; they are one more than
      needed exactly when the total is a multiple of 100. */
  lemma PageRange(total: int)
    requires 0 <= total
    ensures LastPage(total) >= 1
    ensures (LastPage(total) - 1) * PER_PAGE <= total < LastPage(total) * PER_PAGE
    ensures LastPage(total) >= PagesNeeded(total)
    ensures LastPage(total) == PagesNeeded(total) + 1 <==> total % PER_PAGE == 0
    ensures LastPage(total) == PagesNeeded(total) <==> total % PER_PAGE != 0
  {
  }

  /** Worked cases: 150 repositories need pages 1 and 2; 100 repositories also
      get a second, empty, page; an empty organization still gets page 1. */
  lemma PageExamples()
    ensures LastPage(150) == 2 && PagesNeeded(150) == 2
    ensures LastPage(100) == 2 && PagesNeeded(100) == 1
    ensures LastPage(0) == 1 && PagesNeeded(0) == 0
  {
  }

  /** The organization lookup: exits unless it answers 200, else the total. */
  function RepoCount(org: Response<OrgInfo>): Step<int> {
    if org.status != OK then Fatal(ERR_ORG) else Ok(TotalRepos(org.body))
  }

  /** Prepends `names` to a successful listing result; failures pass through. */
  function Prefixed(names: seq<string>, s: Step<seq<string>>): Step<seq<string>> {
    match s
    case Ok(rest) => Ok(names + rest)
    case Fatal(reason) => Fatal(reason)
    case Stalled => Stalled
  }

  /** Prepending in two steps is prepending the concatenation. */
  lemma PrefixedTwice(a: seq<string>, b: seq<string>, s: Step<seq<string>>)
    ensures Prefixed(a, Prefixed(b, s)) == Prefixed(a + b, s)
    ensures Prefixed([], s) == s
  {
    if s.Ok? {
      assert a + (b + s.value) == (a + b) + s.value;
      assert [] + s.value == s.value;
    }
  }

  /** The listing of pages `first` to `last`: the first page that does not
      answer 200 makes the script exit, otherwise the kept names page by page. */
  function ListPages(listing: int -> Response<seq<RepoRecord>>, first: int, last: int): (r: Step<seq<string>>)
    decreases last - first + 1
    ensures !r.Stalled?
    ensures r.Fatal? ==> r.reason == ERR_REPOS
    ensures r.Ok? <==> forall p :: first <= p <= last ==> listing(p).status == OK
  {
    if first > last then Ok([])
    else if listing(first).status != OK then Fatal(ERR_REPOS)
    else Prefixed(Qualifying(listing(first).body), ListPages(listing, first + 1, last))
  }

  /** Every record on pages `first` to `last`, in page order. */
  function Records(listing: int -> Response<seq<RepoRecord>>, first: int, last: int): seq<RepoRecord>
    decreases last - first + 1
  {
    if first > last then [] else listing(first).body + Records(listing, first + 1, last)
  }

  /** A successful listing is exactly the filter applied to all the records of
      all the pages, in page order and then in order within each page. */
  lemma {:induction false} ListPagesIsFilter(listing: int -> Response<seq<RepoRecord>>, first: int, last: int)
    requires ListPages(listing, first, last).Ok?
    ensures ListPages(listing, first, last).value == Qualifying(Records(listing, first, last))
    decreases last - first + 1
  {
    if first <= last {
      ListPagesIsFilter(listing, first + 1, last);
      QualifyingAppend(listing(first).body, Records(listing, first + 1, last));
    }
  }

  /** What enumeration yields after the rate-limit guards let it through: an
      exit if the organization lookup fails, else the listing of all pages. */
  function Enumerate(api: Api): (r: Step<seq<string>>)
    ensures !r.Stalled?
    ensures r.Ok? ==> api.org.status == OK
    ensures r.Fatal? ==> r.reason == (if api.org.status != OK then ERR_ORG else ERR_REPOS)
  {
    if api.org.status != OK then Fatal(ERR_ORG)
    else ListPages(api.listing, 1, LastPage(TotalRepos(api.org.body)))
  }

  /** A name is enumerated exactly when a qualifying record carries it on one of
      the pages requested for the organization's total. */
  lemma EnumeratedNames(api: Api, name: string)
    requires Enumerate(api).Ok?
    ensures api.org.status == OK
    ensures var last := LastPage(TotalRepos(api.org.body));
      name in Enumerate(api).value <==>
        exists r :: r in Records(api.listing, 1, last) && Qualifies(r) && r.name == name
  {
    var last := LastPage(TotalRepos(api.org.body));
    var records := Records(api.listing, 1, last);
    ListPagesIsFilter(api.listing, 1, last);
    QualifyingMembership(records, name);
    if exists r :: r in records && Qualifies(r) && r.name == name {
      var r :| r in records && Qualifies(r) && r.name == name;
      var k :| 0 <= k < |records| && records[k] == r;
    }
  }

  /** get_repo_count: hold for quota, look the organization up, and return the
      private plus public total; a failed lookup exits. */
  method GetRepoCount(api: Api, endpoint: RateLimit.Endpoint) returns (r: Step<int>)
    requires endpoint.Valid()
    modifies endpoint
    ensures endpoint.Valid() && endpoint.replies == old(endpoint.replies)
    ensures var g := RateLimit.GuardFrom(endpoint.replies, old(endpoint.next));
      r == RateLimit.After(g, RepoCount(api.org)) && endpoint.next == g.polls
    ensures r.Ok? ==> api.org.status == OK && r.value == api.org.body.ownedPrivateRepos + api.org.body.publicRepos
  {
    var g := endpoint.HoldUntilRateLimitSuccess();
    if !g.Released? {
      return RateLimit.After(g, Stalled);
    }
    if api.org.status != OK {
      return Fatal(ERR_ORG);
    }
    r := Ok(api.org.body.ownedPrivateRepos + api.org.body.publicRepos);
  }

  /** get_all_repo_names against the rate-limit replies from index `at` on: its
      own guard call, then the one inside get_repo_count, then the
      enumeration; paired with the index of the next reply to be polled. */
  function GuardedEnumerate(api: Api, replies: seq<Response<int>>, at: nat): (r: (Step<seq<string>>, nat))
    requires at <= |replies|
    ensures at <= r.1 <= |replies|
    ensures r.0 == Enumerate(api) || r.0 == Stalled || r.0 == Fatal(ERR_RATE_LIMIT)
  {
    var g1 := RateLimit.GuardFrom(replies, at);
    if !g1.Released? then (RateLimit.After(g1, Stalled), g1.polls)
    else
      var g2 := RateLimit.GuardFrom(replies, g1.polls);
      (RateLimit.After(g2, Enumerate(api)), g2.polls)
  }

  /** Enumeration stops short of `Enumerate(api)` only through the guard: it is
      still waiting only once every reply has been polled, and it exits with
      the rate-limit diagnostic only right after a failed poll. */
  lemma GuardedEnumerateStops(api: Api, replies: seq<Response<int>>, at: nat)
    requires at <= |replies|
    ensures var (r, next) := GuardedEnumerate(api, replies, at);
      && (r == Stalled ==> next == |replies|)
      && (r == Fatal(ERR_RATE_LIMIT) ==> at < next && replies[next - 1].status != OK)
  {
    var g1 := RateLimit.GuardFrom(replies, at);
    RateLimit.GuardFromSpec(replies, at);
    if g1.Released? {
      RateLimit.GuardFromSpec(replies, g1.polls);
    }
  }

  /** When the next two polls both report 100 or more remaining, enumeration
      polls exactly twice and yields `Enumerate(api)`. */
  lemma GuardedEnumeratePlentiful(api: Api, replies: seq<Response<int>>, at: nat)
    requires at + 2 <= |replies|
    requires replies[at].status == OK && replies[at].body >= RateLimit.THRESHOLD
    requires replies[at + 1].status == OK && replies[at + 1].body >= RateLimit.THRESHOLD
    ensures GuardedEnumerate(api, replies, at) == (Enumerate(api), at + 2)
  {
  }

  /** The body of the page loop: append, in order, the name of each record of
      one page that is neither archived, disabled nor a template. */
  method CollectQualifying(names: seq<string>, records: seq<RepoRecord>) returns (result: seq<string>)
    ensures result == names + Qualifying(records)
  {
    result := names;
    var j := 0;
    while j < |records|
      invariant 0 <= j <= |records|
      invariant result == names + Qualifying(records[..j])
    {
      var repo := records[j];
      assert records[..j + 1][..j] == records[..j];
      if repo.archived == false && repo.disabled == false && repo.isTemplate == false {
        result := result + [repo.name];
      }
      j := j + 1;
    }
    assert records[..|records|] == records;
  }

  /** get_all_repo_names: hold for quota, count the repositories, then walk the
      pages and collect the qualifying names. */
  method GetAllRepoNames(api: Api, endpoint: RateLimit.Endpoint) returns (r: Step<seq<string>>)
    requires endpoint.Valid()
    modifies endpoint
    ensures endpoint.Valid() && endpoint.replies == old(endpoint.replies)
    ensures (r, endpoint.next) == GuardedEnumerate(api, endpoint.replies, old(endpoint.next))
  {
    var g := endpoint.HoldUntilRateLimitSuccess();
    if !g.Released? {
      return RateLimit.After(g, Stalled);
    }
    var count := GetRepoCount(api, endpoint);
    if count.Stalled? {
      return Stalled;
    } else if count.Fatal? {
      return Fatal(count.reason);
    }
    ghost var settled := endpoint.next;
    var last := LastPage(count.value);
    var repos: seq<string> := [];
    var page := 1;
    PrefixedTwice([], [], ListPages(api.listing, 1, last));
    while page <= last
      invariant endpoint.replies == old(endpoint.replies) && endpoint.next == settled
      invariant 1 <= page && (page <= last + 1 || last < 1)
      invariant ListPages(api.listing, 1, last) == Prefixed(repos, ListPages(api.listing, page, last))
    {
      var response := api.listing(page);
      if response.status != OK {
        return Fatal(ERR_REPOS);
      }
      ghost var before := repos;
      repos := CollectQualifying(repos, response.body);
      PrefixedTwice(before, Qualifying(response.body), ListPages(api.listing, page + 1, last));
      page := page + 1;
    }
    assert repos + [] == repos;
    r := Ok(repos);
  }
}
