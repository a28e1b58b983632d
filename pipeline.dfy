/** The script's top level: hold for quota, enumerate the repositories,
    truncate the CSV and write its header, then fetch each repository's SBOM in
    enumeration order, numbering them 1 .. N. */
module Pipeline {
  import opened GitHub
  import RateLimit
  import Enumerator
  import Csv
  import Sbom

  /** The data rows written once the first `n` repositories of `names` have
      been processed, in order. */
  function ExpectedRows(org: string, api: Api, names: seq<string>, n: nat): seq<seq<string>>
    requires n <= |names|
  {
    if n == 0 then [] else ExpectedRows(org, api, names, n - 1) + Sbom.RepoRows(org, names[n - 1], api.sbom(names[n - 1]))
  }

  /** The number of packages over the first `n` repositories, counting only
      those whose SBOM fetch answered 200. */
  function PackageTotal(api: Api, names: seq<string>, n: nat): nat
    requires n <= |names|
  {
    if n == 0 then 0
    else
      var response := api.sbom(names[n - 1]);
      PackageTotal(api, names, n - 1) + (if response.status == OK then |response.body| else 0)
  }

  /** Processing repository `i` after the rows `base` appends its rows. */
  lemma ExpectedRowsNext(org: string, api: Api, names: seq<string>, i: nat, base: seq<seq<string>>)
    requires i < |names|
    ensures (base + ExpectedRows(org, api, names, i)) + Sbom.RepoRows(org, names[i], api.sbom(names[i]))
      == base + ExpectedRows(org, api, names, i + 1)
  {
  }

  /** One data row per package of each successfully fetched repository; a
      repository whose fetch failed contributes none. */
  lemma {:induction false} ExpectedRowsCount(org: string, api: Api, names: seq<string>, n: nat)
    requires n <= |names|
    ensures |ExpectedRows(org, api, names, n)| == PackageTotal(api, names, n)
  {
    if n > 0 {
      var response := api.sbom(names[n - 1]);
      ExpectedRowsCount(org, api, names, n - 1);
      Sbom.RowsShape(org, names[n - 1], response.body, |response.body|);
    }
  }

  /** Every data row has four columns: the organization, then one of the
      processed repositories. */
  lemma {:induction false} ExpectedRowsColumns(org: string, api: Api, names: seq<string>, n: nat)
    requires n <= |names|
    ensures forall row :: row in ExpectedRows(org, api, names, n) ==>
      |row| == 4 && row[0] == org && exists j :: 0 <= j < n && names[j] == row[1]
  {
    if n > 0 {
      var earlier := ExpectedRows(org, api, names, n - 1);
      var added := Sbom.RepoRows(org, names[n - 1], api.sbom(names[n - 1]));
      ExpectedRowsColumns(org, api, names, n - 1);
      RepoRowsColumns(org, names[n - 1], api.sbom(names[n - 1]));
      forall row | row in earlier + added
        ensures |row| == 4 && row[0] == org && exists j :: 0 <= j < n && names[j] == row[1]
      {
        if row in added {
          assert names[n - 1] == row[1];
        } else {
          assert row in earlier;
        }
      }
    }
  }

  /** The rows one fetch adds all name the organization and that repository. */
  lemma RepoRowsColumns(org: string, repo: string, response: Response<seq<Package>>)
    ensures forall row :: row in Sbom.RepoRows(org, repo, response) ==> |row| == 4 && row[0] == org && row[1] == repo
  {
    if response.status == OK {
      var rows := Sbom.RepoRows(org, repo, response);
      Sbom.RowsShape(org, repo, response.body, |response.body|);
      forall row | row in rows
        ensures |row| == 4 && row[0] == org && row[1] == repo
      {
        var k :| 0 <= k < |rows| && rows[k] == row;
      }
    }
  }

  /** The rows written for the first k repositories are a prefix of those for
      the first n: a run stopped part-way leaves a truncated but otherwise
      correct file. */
  lemma {:induction false} ExpectedRowsPrefix(org: string, api: Api, names: seq<string>, k: nat, n: nat)
    requires k <= n <= |names|
    ensures ExpectedRows(org, api, names, k) <= ExpectedRows(org, api, names, n)
  {
    if k < n {
      ExpectedRowsPrefix(org, api, names, k, n - 1);
    }
  }

  /** The progress reports for the first `n` repositories, numbered from 1,
      each shown against the enumeration's size `total`. */
  function Reports(api: Api, names: seq<string>, n: nat, total: int): (r: seq<Sbom.Report>)
    requires n <= |names|
    ensures |r| == n
  {
    if n == 0 then [] else Reports(api, names, n - 1, total) + [Sbom.ReportFor(api, names[n - 1], n, total)]
  }

  /** Processing repository `i` appends its report, numbered i + 1. */
  lemma ReportsNext(api: Api, names: seq<string>, i: nat, total: int)
    requires i < |names|
    ensures Reports(api, names, i, total) + [Sbom.ReportFor(api, names[i], i + 1, total)]
      == Reports(api, names, i + 1, total)
  {
  }

  /** The k-th report (from 0) is about the k-th repository and carries index
      k + 1: repositories are processed in enumeration order numbered 1 .. N. */
  lemma {:induction false} ReportsAt(api: Api, names: seq<string>, n: nat, total: int)
    requires n <= |names|
    ensures |Reports(api, names, n, total)| == n
    ensures forall k :: 0 <= k < n ==> Reports(api, names, n, total)[k] == Sbom.ReportFor(api, names[k], k + 1, total)
    ensures forall k :: 0 <= k < n ==> Reports(api, names, n, total)[k].repo == names[k]
    ensures forall k :: 0 <= k < n ==> Reports(api, names, n, total)[k].index == k + 1
  {
    if n > 0 {
      var earlier := Reports(api, names, n - 1, total);
      var all := Reports(api, names, n, total);
      ReportsAt(api, names, n - 1, total);
      assert all == earlier + [Sbom.ReportFor(api, names[n - 1], n, total)];
      forall k | 0 <= k < n
        ensures all[k] == Sbom.ReportFor(api, names[k], k + 1, total)
      {
        if k < n - 1 {
          assert all[k] == earlier[k];
        }
      }
    }
  }

  /** How the script ends: after the last repository, by exiting with a
      diagnostic, or still sleeping in a rate-limit guard. */
  datatype Status = Completed | Exited(reason: string) | Sleeping

  /** How a run ended, whether the CSV had been initialized, the enumerated
      names, and the progress reports of the repositories processed so far. */
  datatype RunResult = RunResult(status: Status, csvInitialized: bool, names: seq<string>, reports: seq<Sbom.Report>)

  /** The guard calls of the main loop: how many fetches they let through, how
      many replies they poll, and how the loop ends. */
  datatype Progress = Progress(passed: nat, consumed: nat, status: Status)

  /** The guard calls of the main loop once `i` of its `m` fetches have gone
      ahead and the replies before index `at` have been polled: the loop goes
      on while the guard returns and stops at the first guard call that exits
      or is still waiting. SBOM replies play no part. */
  function GuardsFrom(replies: seq<Response<int>>, m: nat, i: nat, at: nat): (p: Progress)
    requires i <= m && at <= |replies|
    decreases m - i
    ensures i <= p.passed <= m && at <= p.consumed <= |replies|
    ensures p.status.Completed? <==> p.passed == m
    ensures p.status == Completed || p.status == Sleeping || p.status == Exited(ERR_RATE_LIMIT)
  {
    if i == m then Progress(m, at, Completed)
    else
      var g := RateLimit.GuardFrom(replies, at);
      if !g.Released? then Progress(i, g.polls, if g.Failed? then Exited(ERR_RATE_LIMIT) else Sleeping)
      else GuardsFrom(replies, m, i + 1, g.polls)
  }

  /** One guard call of the main loop: if it returns, the next fetch goes
      ahead; otherwise the loop ends there. */
  lemma GuardsStep(replies: seq<Response<int>>, m: nat, i: nat, at: nat)
    requires i < m && at <= |replies|
    ensures var g := RateLimit.GuardFrom(replies, at);
      GuardsFrom(replies, m, i, at) ==
        if g.Released? then GuardsFrom(replies, m, i + 1, g.polls)
        else Progress(i, g.polls, if g.Failed? then Exited(ERR_RATE_LIMIT) else Sleeping)
  {
  }

  /** The main loop stops early only through the guard: it is still sleeping
      only once every reply has been polled, and it exits only right after a
      failed poll. */
  lemma {:induction false} GuardsStop(replies: seq<Response<int>>, m: nat, i: nat, at: nat)
    requires i <= m && at <= |replies|
    decreases m - i
    ensures var p := GuardsFrom(replies, m, i, at);
      && (p.status == Sleeping ==> p.consumed == |replies|)
      && (p.status == Exited(ERR_RATE_LIMIT) ==> at < p.consumed && replies[p.consumed - 1].status != OK)
  {
    if i < m {
      var g := RateLimit.GuardFrom(replies, at);
      RateLimit.GuardFromSpec(replies, at);
      if g.Released? {
        GuardsStop(replies, m, i + 1, g.polls);
      }
    }
  }

  /** Every reply from index `at` on answers 200 with 100 or more requests remaining. */
  predicate Plentiful(replies: seq<Response<int>>, at: nat)
    decreases |replies| - at
  {
    at >= |replies|
    || (replies[at].status == OK && replies[at].body >= RateLimit.THRESHOLD && Plentiful(replies, at + 1))
  }

  /** When every poll from index `at` on reports 100 or more remaining, each
      guard call polls once and every remaining fetch goes ahead. */
  lemma {:induction false} GuardsPlentiful(replies: seq<Response<int>>, m: nat, i: nat, at: nat)
    requires i <= m && at + (m - i) <= |replies|
    requires Plentiful(replies, at)
    decreases m - i
    ensures GuardsFrom(replies, m, i, at) == Progress(m, at + (m - i), Completed)
  {
    if i < m {
      GuardsPlentiful(replies, m, i + 1, at + 1);
    }
  }

  /** The whole script against the rate-limit replies from index `at` on: the
      start-up guard, enumeration, then the main loop; paired with the index
      of the next reply to be polled. */
  function Script(api: Api, replies: seq<Response<int>>, at: nat): (r: (RunResult, nat))
    requires at <= |replies|
    ensures at <= r.1 <= |replies|
    ensures !r.0.csvInitialized ==> r.0.names == [] && r.0.reports == [] && !r.0.status.Completed?
    ensures r.0.csvInitialized ==>
      && Enumerator.Enumerate(api) == Ok(r.0.names)
      && |r.0.reports| <= |r.0.names|
      && r.0.reports == Reports(api, r.0.names, |r.0.reports|, |r.0.names|)
    ensures r.0.status.Completed? <==> r.0.csvInitialized && |r.0.reports| == |r.0.names|
    ensures r.0.status.Exited? && r.0.status.reason != ERR_RATE_LIMIT ==>
      !r.0.csvInitialized && Enumerator.Enumerate(api) == Fatal(r.0.status.reason)
  {
    var g := RateLimit.GuardFrom(replies, at);
    if !g.Released? then (RunResult(if g.Failed? then Exited(ERR_RATE_LIMIT) else Sleeping, false, [], []), g.polls)
    else
      var (listed, next) := Enumerator.GuardedEnumerate(api, replies, g.polls);
      if !listed.Ok? then
        (RunResult(if listed.Fatal? then Exited(listed.reason) else Sleeping, false, [], []), next)
      else
        var names := listed.value;
        var p := GuardsFrom(replies, |names|, 0, next);
        (RunResult(p.status, true, names, Reports(api, names, p.passed, |names|)), p.consumed)
  }

  /** Only the rate-limit guard stops a run short of an exit from enumeration:
      the run is still sleeping only once every reply has been polled, and it
      exits with the rate-limit diagnostic only right after a failed poll. */
  lemma ScriptStops(api: Api, replies: seq<Response<int>>, at: nat)
    requires at <= |replies|
    ensures var (r, next) := Script(api, replies, at);
      && (r.status == Sleeping ==> next == |replies|)
      && (r.status == Exited(ERR_RATE_LIMIT) ==> at < next && replies[next - 1].status != OK)
  {
    var g := RateLimit.GuardFrom(replies, at);
    RateLimit.GuardFromSpec(replies, at);
    if g.Released? {
      var (listed, next) := Enumerator.GuardedEnumerate(api, replies, g.polls);
      Enumerator.GuardedEnumerateStops(api, replies, g.polls);
      if listed.Ok? {
        GuardsStop(replies, |listed.value|, 0, next);
      }
    }
  }

  /** Once the start-up guard has returned and enumeration has succeeded,
      the run is the main loop over the enumerated names, ending as `p`. */
  lemma ScriptEnumerated(api: Api, replies: seq<Response<int>>, at: nat, names: seq<string>, next: nat,
                         passed: nat, consumed: nat, status: Status)
    requires at <= |replies| && RateLimit.GuardFrom(replies, at).Released?
    requires Enumerator.GuardedEnumerate(api, replies, RateLimit.GuardFrom(replies, at).polls) == (Ok(names), next)
    requires GuardsFrom(replies, |names|, 0, next) == Progress(passed, consumed, status)
    ensures Script(api, replies, at) == (RunResult(status, true, names, Reports(api, names, passed, |names|)), consumed)
  {
  }

  /** With a successful enumeration and every poll from index `at` on
      reporting 100 or more remaining, the run polls once per guard call and
      processes every repository, numbered 1 .. N. */
  lemma ScriptPlentiful(api: Api, replies: seq<Response<int>>, at: nat, names: seq<string>)
    requires Enumerator.Enumerate(api) == Ok(names)
    requires at + 3 + |names| <= |replies|
    requires Plentiful(replies, at)
    ensures Script(api, replies, at).0.status == Completed
    ensures Script(api, replies, at).0.csvInitialized && Script(api, replies, at).0.names == names
    ensures Script(api, replies, at).0.reports == Reports(api, names, |names|, |names|)
    ensures Script(api, replies, at).1 == at + 3 + |names|
  {
    assert Plentiful(replies, at + 1) && Plentiful(replies, at + 2);
    assert RateLimit.GuardFrom(replies, at) == RateLimit.Released(at + 1);
    Enumerator.GuardedEnumeratePlentiful(api, replies, at + 1);
    GuardsPlentiful(replies, |names|, 0, at + 3);
    ScriptEnumerated(api, replies, at, names, at + 3, |names|, at + 3 + |names|, Completed);
  }

  /** The SBOM replies never decide how a run ends or how far it gets: two
      runs that differ only in them end alike after the same repositories. A
      failed SBOM fetch never stops the main loop. */
  lemma ScriptIgnoresSbom(api: Api, other: Api, replies: seq<Response<int>>, at: nat)
    requires at <= |replies|
    requires other.org == api.org && other.listing == api.listing
    ensures Script(other, replies, at).0.status == Script(api, replies, at).0.status
    ensures Script(other, replies, at).0.names == Script(api, replies, at).0.names
    ensures |Script(other, replies, at).0.reports| == |Script(api, replies, at).0.reports|
    ensures Script(other, replies, at).1 == Script(api, replies, at).1
  {
    assert Enumerator.Enumerate(other) == Enumerator.Enumerate(api);
  }

  /** The main loop: fetch each repository's SBOM in enumeration order with
      index 1 .. N. A failed fetch adds no rows and the loop goes on; only the
      rate-limit guard can stop it. */
  method ExportDependencies(api: Api, endpoint: RateLimit.Endpoint, file: Csv.CsvFile,
                            org: string, repoNames: seq<string>)
    returns (status: Status, reports: seq<Sbom.Report>)
    requires endpoint.Valid()
    modifies endpoint, file
    ensures endpoint.Valid() && endpoint.replies == old(endpoint.replies)
    ensures var p := GuardsFrom(endpoint.replies, |repoNames|, 0, old(endpoint.next));
      status == p.status && |reports| == p.passed && endpoint.next == p.consumed
    ensures file.rows == old(file.rows) + ExpectedRows(org, api, repoNames, |reports|)
    ensures reports == Reports(api, repoNames, |reports|, |repoNames|)
  {
    var repoCount := |repoNames|;
    var index := 1;
    reports := [];
    ghost var replies := endpoint.replies;
    ghost var outcome := GuardsFrom(replies, |repoNames|, 0, endpoint.next);
    for i := 0 to |repoNames|
      invariant index == i + 1 && |reports| == i
      invariant endpoint.Valid() && endpoint.replies == replies
      invariant GuardsFrom(replies, |repoNames|, i, endpoint.next) == outcome
      invariant file.rows == old(file.rows) + ExpectedRows(org, api, repoNames, i)
      invariant reports == Reports(api, repoNames, i, repoCount)
    {
      var repo := repoNames[i];
      ghost var at := endpoint.next;
      GuardsStep(replies, |repoNames|, i, at);
      var report := Sbom.GetRepoDependencies(api, endpoint, file, org, repo, index, repoCount);
      if !report.Ok? {
        status := if report.Fatal? then Exited(ERR_RATE_LIMIT) else Sleeping;
        assert outcome == Progress(i, endpoint.next, status);
        return;
      }
      ExpectedRowsNext(org, api, repoNames, i, old(file.rows));
      ReportsNext(api, repoNames, i, repoCount);
      reports := reports + [report.value];
      index := index + 1;
    }
    status := Completed;
  }

  /** The whole script: it ends as `Script` says for the rate-limit replies,
      and the file is untouched until the CSV is initialized, then holds the
      header followed by the rows of the repositories processed so far. */
  method Run(api: Api, endpoint: RateLimit.Endpoint, file: Csv.CsvFile, org: string) returns (r: RunResult)
    requires endpoint.Valid()
    modifies endpoint, file
    ensures endpoint.Valid() && endpoint.replies == old(endpoint.replies)
    ensures (r, endpoint.next) == Script(api, endpoint.replies, old(endpoint.next))
    ensures !r.csvInitialized ==> file.rows == old(file.rows)
    ensures r.csvInitialized ==> file.rows == [Csv.HEADER] + ExpectedRows(org, api, r.names, |r.reports|)
    ensures r.status.Completed? ==> |file.rows| == 1 + PackageTotal(api, r.names, |r.names|)
  {
    var g := endpoint.HoldUntilRateLimitSuccess();
    if !g.Released? {
      return RunResult(if g.Failed? then Exited(ERR_RATE_LIMIT) else Sleeping, false, [], []);
    }
    var listed := Enumerator.GetAllRepoNames(api, endpoint);
    if listed.Stalled? {
      return RunResult(Sleeping, false, [], []);
    } else if listed.Fatal? {
      return RunResult(Exited(listed.reason), false, [], []);
    }
    var repoNames := listed.value;
    file.Initialize();
    var status, reports := ExportDependencies(api, endpoint, file, org, repoNames);
    if status.Completed? {
      ExpectedRowsCount(org, api, repoNames, |repoNames|);
    }
    r := RunResult(status, true, repoNames, reports);
  }
}
