# Organization-wide SBOM license inventory — a Dafny model

The script lists every repository of a GitHub organization that is not archived, not
disabled and not a template. It fetches each repository's dependency-graph SBOM and
writes one CSV row `org,repo,dependency_name,license` per package. Along the way it
prints an advisory for every license whose upper-cased text contains `GPL`. A rate-limit
guard polls the rate-limit endpoint at start-up (org_get_all_repos_sbom.py:209), twice
during enumeration (py:112, and py:78 before the organization lookup) and before each
SBOM fetch (py:153). The listing pages are fetched with no guard between them. The guard
sleeps while fewer than 100 requests remain and exits on a failed poll.

This project models that logic with the HTTP replies as plain inputs:

- `GitHub` (github.dfy): the data model. Replies are `Response(status, body)`. The
  API is a value `Api`: the organization lookup, a function from page number to
  listing page, and a function from repository name to SBOM reply. How a step ends is
  a `Step`: it returns a value (`Ok`), it prints a diagnostic and exits with status 1
  (`Fatal`, carrying the script's own diagnostic text), or it is still waiting in the
  guard (`Stalled`).
- `RateLimit` (rate_limit.dfy): the guard. The rate-limit endpoint is a class that
  holds every reply it gives, in order, and the index of the next poll. The guard's
  `while True` loop becomes a method that advances that index. `GuardFrom` is the
  function it is proved against.
- `Enumerator` (enumerator.dfy): the repository count, the page range
  `1 .. total // 100 + 1`, the filter, and `GetAllRepoNames`, whose nested page and
  record loops append to the name list. `GuardedEnumerate` says what the whole of
  `get_all_repo_names` does for given rate-limit replies.
- `Csv` (csv.dfy): the output file as a class with a `rows` field. `Initialize`
  truncates it and writes the header. `AppendRow` appends one row.
- `Sbom` (sbom.dfy): the `"Unknown"` license default, ASCII upper-casing, substring
  search, the copyleft test, and `GetRepoDependencies`, whose package loop
  (`WritePackages`) appends one row per package.
- `Pipeline` (pipeline.dfy): the script's top level and its main loop, with the
  per-repository index running 1 .. N. `GuardsFrom` says what the main loop's guard
  calls do, and `Script` what a whole run does, for given rate-limit replies.

Python's `//` on the repository total is Dafny's `/`. The divisor is the positive
constant 100, so floor and Euclidean division agree.

`get_all_repo_names` calls the guard once, before the count lookup. The listing pages
are fetched with no guard between them (org_get_all_repos_sbom.py:112-131). The model
has exactly the code's guard calls: one at start-up, two in enumeration (its own and
the one inside `get_repo_count`), and one before each SBOM fetch.

## Model

| member | source | states |
|---|---|---|
| `RateLimit.GuardFrom` | org_get_all_repos_sbom.py:34-54 | A guard call starting at poll index i ends within the replies that exist. It consumes every remaining reply when it is still waiting, and at least one reply when it returns or exits. |
| `RateLimit.GuardFromSpec` | org_get_all_repos_sbom.py:34-54 | The guard returns after poll n only if reply n answered 200 with at least 100 remaining and every earlier reply of the call answered 200 with fewer than 100. It exits after poll n only if reply n was not a 200 and every earlier reply was a 200 below 100. It is still waiting exactly when every reply from its start on was a 200 below 100. |
| `RateLimit.ReleasedIff` | org_get_all_repos_sbom.py:43-54 | A guard call returns after exactly n polls if and only if reply n reports at least 100 remaining and all earlier replies were successful and below 100. |
| `RateLimit.Endpoint.HoldUntilRateLimitSuccess` | org_get_all_repos_sbom.py:33-54 | The polling loop ends as `GuardFrom` says for the replies from the endpoint's next index on. Afterwards the next index is just past the last reply it polled, so later guard calls see the rest. The replies themselves never change. |
| `Enumerator.Qualifies` | org_get_all_repos_sbom.py:141 | A listing entry is kept when it is not archived, not disabled and not a template. |
| `Enumerator.QualifyingMembership` | org_get_all_repos_sbom.py:139-142 | A name is kept if and only if some record carrying it is not archived, not disabled and not a template. |
| `Enumerator.QualifyingAppend` | org_get_all_repos_sbom.py:139-142 | Filtering preserves order: the names kept from a concatenation are those of the first part followed by those of the second. |
| `Enumerator.QualifyingLength` | org_get_all_repos_sbom.py:139-142 | At most one name is kept per record. Every record is kept exactly when all of them qualify. |
| `Enumerator.TotalRepos` | org_get_all_repos_sbom.py:92-94 | The organization's repository total is its owned private plus its public repositories. |
| `Enumerator.LastPage` | org_get_all_repos_sbom.py:123-124 | For a non-negative total, the last page requested is at least 1 and is the page of 100 entries that the total falls in: (last - 1) * 100 <= total < last * 100. |
| `Enumerator.PagesNeededIsLeast` | org_get_all_repos_sbom.py:123-124 | The reference page count ceil(total/100) is the least number of 100-entry pages that holds every repository. |
| `Enumerator.PageRange` | org_get_all_repos_sbom.py:123-124 | For a non-negative total, pages 1 .. total//100+1 are requested. At least one page is requested, and the pages cover every repository. Their number is ceil(total/100) plus one exactly when the total is a multiple of 100, and ceil(total/100) otherwise. |
| `Enumerator.PageExamples` | org_get_all_repos_sbom.py:123-124 | 150 repositories give pages 1 and 2. 100 repositories also give an extra page 2. An empty organization still gets page 1. |
| `Enumerator.ListPages` | org_get_all_repos_sbom.py:124-142 | Listing pages first..last succeeds if and only if every page answers 200. Otherwise the result is the "Error fetching repos" exit, and it is never a wait. |
| `Enumerator.ListPagesIsFilter` | org_get_all_repos_sbom.py:124-142 | A successful listing equals the filter applied to all records of all pages, in page order and then in-page order. |
| `Enumerator.Enumerate` | org_get_all_repos_sbom.py:109-147 | Once the guards let it through, enumeration never waits. It succeeds only after a 200 organization lookup. It exits with "Error fetching org info" exactly when that lookup fails, and otherwise fails only with "Error fetching repos". |
| `Enumerator.EnumeratedNames` | org_get_all_repos_sbom.py:109-147 | A successful enumeration implies the organization lookup answered 200. A name is enumerated if and only if a qualifying record on one of the pages 1 .. total//100+1 carries it. |
| `Enumerator.GetRepoCount` | org_get_all_repos_sbom.py:76-106 | After the guard returns, a lookup that is not a 200 exits with "Error fetching org info". Otherwise the count is owned private plus public repositories. A failed guard exits and a waiting guard stays waiting. |
| `Enumerator.CollectQualifying` | org_get_all_repos_sbom.py:139-142 | The record loop of one page appends exactly the names the filter keeps, in record order, after the names already collected. |
| `Enumerator.GuardedEnumerate` | org_get_all_repos_sbom.py:109-114 | `get_all_repo_names` for given rate-limit replies: it yields the enumeration, a wait or the rate-limit exit, and consumes replies forward from its start without running past the last one. |
| `Enumerator.GuardedEnumerateStops` | org_get_all_repos_sbom.py:109-114 | Enumeration stops short of its listing only through the guard. It is still waiting only once every rate-limit reply has been polled, and it exits with the rate-limit diagnostic only right after a poll that did not answer 200. |
| `Enumerator.GuardedEnumeratePlentiful` | org_get_all_repos_sbom.py:109-114 | When the next two polls both report 100 or more remaining, enumeration polls exactly twice and yields the full enumeration. |
| `Enumerator.GetAllRepoNames` | org_get_all_repos_sbom.py:109-147 | The guard calls, the count lookup and the nested page and record loops end exactly as `GuardedEnumerate` says for the endpoint's replies. The endpoint's next index is the one it gives. |
| `Csv.CsvFile.Initialize` | org_get_all_repos_sbom.py:57-64 | Opening for writing truncates the file, which then holds only the header `org,repo,dependency_name,license`. |
| `Csv.CsvFile.AppendRow` | org_get_all_repos_sbom.py:186-193 | Appending adds exactly one row at the end and leaves earlier rows unchanged. |
| `Sbom.LicenseOf` | org_get_all_repos_sbom.py:176-180 | A package's license is its `licenseConcluded` value, or "Unknown" when that key is absent. |
| `Sbom.Upper` | org_get_all_repos_sbom.py:183 | Upper-casing keeps the length of the license text. |
| `Sbom.UpperAt` | org_get_all_repos_sbom.py:183 | Upper-casing works character by character: character i of the result is character i of the input, upper-cased. |
| `Sbom.UpperLetters` | org_get_all_repos_sbom.py:183 | The upper-cased text has no lower-case ASCII letter, and each of its characters is the input character unchanged or a lower-case letter moved to its capital. |
| `Sbom.ContainsIff` | org_get_all_repos_sbom.py:183 | The substring search used for `in` succeeds if and only if the pattern occurs at some index. |
| `Sbom.IsCopyleft` | org_get_all_repos_sbom.py:183 | A license is flagged when "GPL" occurs in its upper-cased text. `CopyleftAnyCase` states what that means for the license as written. |
| `Sbom.CopyleftAnyCase` | org_get_all_repos_sbom.py:183-184 | A license is flagged if and only if it contains the letters g, p, l in a row, each in either case. |
| `Sbom.NoGIsNotCopyleft` | org_get_all_repos_sbom.py:183 | A license with no letter g in either case is never flagged. |
| `Sbom.CopyleftExamples` | org_get_all_repos_sbom.py:183-184 | "GPL-3.0", "lgpl-2.1" and "AGPL-3.0" are all flagged. |
| `Sbom.NonCopyleftExamples` | org_get_all_repos_sbom.py:177-184 | "MIT", "Apache-2.0" and the "Unknown" default are not flagged. |
| `Sbom.RowsShape` | org_get_all_repos_sbom.py:175-193 | A successful fetch writes exactly one row per package, in package order. Each row is [org, repo, package name, license], where the license is the `licenseConcluded` value or "Unknown" when that is absent. The row does not depend on the copyleft test. |
| `Sbom.AdvisoriesExact` | org_get_all_repos_sbom.py:182-184 | An advisory is printed exactly for each package whose license is flagged, naming that package and its license. |
| `Sbom.AdvisoriesCount` | org_get_all_repos_sbom.py:182-184 | The number of advisories printed equals the number of flagged packages, and is at most the number of packages. With `AdvisoriesExact` this means exactly one advisory per flagged package. |
| `Sbom.SingleGplPackage` | org_get_all_repos_sbom.py:175-193 | One package licensed "GPL-3.0" gives one row with license "GPL-3.0" and one advisory. |
| `Sbom.GetRepoDependencies` | org_get_all_repos_sbom.py:150-193 | The guard polls from the endpoint's next index as `GuardFrom` says, and the fetch goes ahead exactly when the guard returned. A 200 reply then appends `Rows` for its packages and reports their advisories. Any other reply appends nothing and returns normally. A guard exit or wait leaves the file unchanged and gives the rate-limit exit or a wait. |
| `Sbom.WritePackages` | org_get_all_repos_sbom.py:175-193 | The package loop appends one row per package in package order, as `Rows` says, and prints exactly the advisories `Advisories` lists for those packages. |
| `Pipeline.ExpectedRowsCount` | org_get_all_repos_sbom.py:215-222 | The data rows number the packages of the repositories whose fetch answered 200. A failed fetch contributes none. |
| `Pipeline.ExpectedRowsColumns` | org_get_all_repos_sbom.py:192 | Every data row has four columns: the organization first, then one of the processed repositories. |
| `Pipeline.RepoRowsColumns` | org_get_all_repos_sbom.py:186-193 | Every row one fetch adds has four columns and names the organization and that repository. |
| `Pipeline.ExpectedRowsPrefix` | org_get_all_repos_sbom.py:186-193 | The rows written for the first k repositories are a prefix of a full run's rows. A run stopped part-way leaves a truncated but otherwise correct file. |
| `Pipeline.ReportsAt` | org_get_all_repos_sbom.py:218-222 | Report k is about the k-th enumerated repository and carries index k+1 out of N. |
| `Pipeline.GuardsFrom` | org_get_all_repos_sbom.py:218-222 | The guard calls of the main loop, one before each SBOM fetch: how many fetches go ahead and how many rate-limit replies they consume. The loop completes exactly when every fetch went ahead, and otherwise ends sleeping or with the rate-limit exit. |
| `Pipeline.GuardsStop` | org_get_all_repos_sbom.py:218-222 | The main loop stops early while sleeping only once every rate-limit reply has been polled, and with the rate-limit exit only right after a poll that did not answer 200. |
| `Pipeline.GuardsPlentiful` | org_get_all_repos_sbom.py:218-222 | When every poll reports 100 or more remaining, each guard call polls once and every fetch goes ahead. |
| `Pipeline.Script` | org_get_all_repos_sbom.py:200-222 | A whole run for given rate-limit replies. The CSV is initialized only when enumeration succeeded, and the names are then exactly the enumeration. The reports are those of the first repositories, in order, numbered from 1. The run completes exactly when every repository was processed. An exit other than the rate-limit one is an enumeration failure that leaves the CSV uninitialized. |
| `Pipeline.ScriptStops` | org_get_all_repos_sbom.py:200-222 | A run is still sleeping at its end only once every rate-limit reply has been polled, and ends with the rate-limit exit only right after a poll that did not answer 200. |
| `Pipeline.ScriptPlentiful` | org_get_all_repos_sbom.py:200-222 | With a successful enumeration of N repositories and every poll reporting 100 or more remaining, a run polls 3 + N times, completes, and processes all N repositories, numbered 1 .. N. |
| `Pipeline.ScriptIgnoresSbom` | org_get_all_repos_sbom.py:165-222 | The SBOM replies never change how a run ends, which repositories it enumerates, how many it processes or how many rate-limit replies it consumes. In particular a non-200 SBOM reply, which returns normally, never stops the main loop. |
| `Pipeline.ExportDependencies` | org_get_all_repos_sbom.py:218-222 | The main loop ends as `GuardsFrom` says for the endpoint's replies: its status, how many repositories it processes and the endpoint's next index. It appends those repositories' rows in enumeration order and reports them numbered 1 .. N. The SBOM replies play no part in when it stops. |
| `Pipeline.Run` | org_get_all_repos_sbom.py:200-222 | The run ends exactly as `Script` says for the endpoint's replies, including the endpoint's next index. Before the CSV is initialized the file is untouched. Afterwards it is the single header followed by the rows of the repositories processed so far. A completed run holds 1 + (total packages of successful fetches) rows. |

## Left out

- The HTTP calls, URL and header construction (`build_headers`) and JSON decoding. Replies are inputs (`Api`, `RateLimit.Endpoint`). The listing URL's `per_page=100+` query text is request plumbing. The size of a listing page is not constrained; only the page-arithmetic members (`LastPage`, `PagesNeeded`, `PagesNeededIsLeast`, `PageRange`, `PageExamples`) reason about pages of 100 entries.
- Malformed JSON. A missing key (`message`, `sbom`, `packages`, `name`, the repository flags, the organization counters) would raise in the script. A `licenseConcluded` present but null would make `.upper()` raise. The model assumes well-formed bodies.
- The 60-second sleep and the unbounded wait. The guard is modelled over a finite sequence of replies. `Waiting`/`Stalled`/`Sleeping` means the script is still sleeping when those replies run out.
- Environment validation (`initial_var_validation`) and the module-level `GITHUB_ORG`, `GITHUB_TOKEN` and `headers`. The organization is a parameter. `exit(1)` is the `Fatal`/`Exited` result.
- File I/O and `csv.writer` quoting. The file is a sequence of rows. Its name `{org}_repo_dependency_licensing.csv` is not modelled.
- Console output. The only part kept is the copyleft advisories and the per-repository progress reports (repository, index, total, success). The text of the SBOM error message is not kept.
- Repeated SBOM requests. `Api.sbom` is a function of the repository name, so a name enumerated twice (pagination shifting between page requests) gets the same reply both times, where the script makes two requests that may be answered differently. No proved property depends on this.
- Upper-casing covers ASCII letters only. Python's Unicode `str.upper()` is not modelled.
