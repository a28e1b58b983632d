/** The SBOM fetcher: for one repository, fetch its dependency-graph SBOM and
    write one CSV row per package, defaulting a missing license to "Unknown" and
    flagging licenses whose upper-cased text contains "GPL". */
module Sbom {
  import opened GitHub
  import RateLimit
  import Csv

  const UNKNOWN := "Unknown"
  const COPYLEFT_MARK := "GPL"

  /** The license written for a package: `licenseConcluded`, or "Unknown". */
  function LicenseOf(p: Package): string {
    match p.licenseConcluded
    case Some(license) => license
    case None => UNKNOWN
  }

  /** Upper-casing of one character, ASCII letters only. */
  function UpperChar(c: char): char {
    if 'a' <= c <= 'z' then (c as int - 32) as char else c
  }

  /** `str.upper()` on ASCII, character by character. */
  function Upper(s: string): (u: string)
    ensures |u| == |s|
  {
    if s == [] then [] else Upper(s[..|s| - 1]) + [UpperChar(s[|s| - 1])]
  }

  /** Upper-casing works character by character, in place. */
  lemma {:induction false} UpperAt(s: string, i: nat)
    requires i < |s|
    ensures Upper(s)[i] == UpperChar(s[i])
    decreases |s|
  {
    if i < |s| - 1 {
      UpperAt(s[..|s| - 1], i);
    }
  }

  /** Upper-casing leaves no lower-case letter, changes only lower-case letters,
      and maps each of them to its capital. */
  lemma UpperLetters(s: string)
    ensures forall i :: 0 <= i < |s| ==> !('a' <= Upper(s)[i] <= 'z')
    ensures forall i :: 0 <= i < |s| ==>
      Upper(s)[i] == s[i] || ('a' <= s[i] <= 'z' && Upper(s)[i] as int == s[i] as int - 32)
  {
    forall i | 0 <= i < |s|
      ensures !('a' <= Upper(s)[i] <= 'z')
      ensures Upper(s)[i] == s[i] || ('a' <= s[i] <= 'z' && Upper(s)[i] as int == s[i] as int - 32)
    {
      UpperAt(s, i);
    }
  }

  /** `t` occurs in `s` starting at index `i`. */
  predicate OccursAt(s: string, t: string, i: int) {
    0 <= i && i + |t| <= |s| && s[i..i + |t|] == t
  }

  /** Substring search, as Python's `t in s`: `t` is a prefix of `s` or occurs
      in the rest of `s`. */
  predicate Contains(s: string, t: string)
    decreases |s|
  {
    t <= s || (s != [] && Contains(s[1..], t))
  }

  /** The search finds `t` exactly when `t` occurs at some index of `s`. */
  lemma {:induction false} ContainsIff(s: string, t: string)
    ensures Contains(s, t) <==> exists i :: OccursAt(s, t, i)
    decreases |s|
  {
    if t <= s {
      assert OccursAt(s, t, 0);
    } else if s != [] {
      ContainsIff(s[1..], t);
      if Contains(s[1..], t) {
        var i :| OccursAt(s[1..], t, i);
        assert s[i + 1..i + 1 + |t|] == s[1..][i..i + |t|];
        assert OccursAt(s, t, i + 1);
      }
      if exists i :: OccursAt(s, t, i) {
        var i :| OccursAt(s, t, i);
        assert i != 0;
        assert s[1..][i - 1..i - 1 + |t|] == s[i..i + |t|];
        assert OccursAt(s[1..], t, i - 1);
      }
    }
  }

  /** The copyleft test of the fetcher: "GPL" in the upper-cased license. */
  predicate IsCopyleft(license: string) {
    Contains(Upper(license), COPYLEFT_MARK)
  }

  /** `license` has the letters g, p, l, each in either case, at `i`, `i + 1`, `i + 2`. */
  predicate GplLetters(license: string, i: int) {
    0 <= i && i + 3 <= |license|
    && (license[i] == 'G' || license[i] == 'g')
    && (license[i + 1] == 'P' || license[i + 1] == 'p')
    && (license[i + 2] == 'L' || license[i + 2] == 'l')
  }

  ghost predicate GplAt(license: string) {
    exists i :: GplLetters(license, i)
  }

  /** The copyleft test matches "gpl" in any mix of upper and lower case. */
  lemma CopyleftAnyCase(license: string)
    ensures IsCopyleft(license) <==> GplAt(license)
  {
    var u := Upper(license);
    ContainsIff(u, COPYLEFT_MARK);
    if IsCopyleft(license) {
      var i :| OccursAt(u, COPYLEFT_MARK, i);
      UpperAt(license, i);
      UpperAt(license, i + 1);
      UpperAt(license, i + 2);
      assert u[i..i + 3][0] == u[i] == 'G';
      assert u[i..i + 3][1] == u[i + 1] == 'P';
      assert u[i..i + 3][2] == u[i + 2] == 'L';
      assert GplLetters(license, i);
    }
    if GplAt(license) {
      var i :| GplLetters(license, i);
      UpperAt(license, i);
      UpperAt(license, i + 1);
      UpperAt(license, i + 2);
      assert u[i..i + 3] == COPYLEFT_MARK;
      assert OccursAt(u, COPYLEFT_MARK, i);
    }
  }

  /** A license without the letter g in either case is never flagged. */
  lemma NoGIsNotCopyleft(license: string)
    requires forall i :: 0 <= i < |license| ==> license[i] != 'G' && license[i] != 'g'
    ensures !IsCopyleft(license)
  {
    CopyleftAnyCase(license);
  }

  /** Worked cases: GPL itself, and LGPL and AGPL in either case, are flagged. */
  lemma CopyleftExamples()
    ensures IsCopyleft("GPL-3.0") && IsCopyleft("lgpl-2.1") && IsCopyleft("AGPL-3.0")
  {
    CopyleftAnyCase("GPL-3.0");
    assert GplLetters("GPL-3.0", 0);
    CopyleftAnyCase("lgpl-2.1");
    assert GplLetters("lgpl-2.1", 1);
    CopyleftAnyCase("AGPL-3.0");
    assert GplLetters("AGPL-3.0", 1);
  }

  /** Worked cases: "MIT", "Apache-2.0" and the "Unknown" default are not flagged. */
  lemma NonCopyleftExamples()
    ensures !IsCopyleft("MIT") && !IsCopyleft("Apache-2.0") && !IsCopyleft(UNKNOWN)
  {
    assert !IsCopyleft(UNKNOWN) by {
      NoGIsNotCopyleft(UNKNOWN);
    }
    assert !IsCopyleft("MIT") by {
      NoGIsNotCopyleft("MIT");
    }
    NoGIsNotCopyleft("Apache-2.0");
  }

  /** The console line printed for a flagged package. */
  datatype Advisory = Advisory(dependency: string, license: string)

  /** The row written for one package of one repository. */
  function Row(org: string, repo: string, p: Package): seq<string> {
    [org, repo, p.name, LicenseOf(p)]
  }

  /** The rows written for the first `n` packages, one per package in order. */
  function Rows(org: string, repo: string, packages: seq<Package>, n: nat): seq<seq<string>>
    requires n <= |packages|
  {
    if n == 0 then [] else Rows(org, repo, packages, n - 1) + [Row(org, repo, packages[n - 1])]
  }

  /** The advisories printed for the first `n` packages, in package order. */
  function Advisories(packages: seq<Package>, n: nat): seq<Advisory>
    requires n <= |packages|
  {
    if n == 0 then []
    else
      var p := packages[n - 1];
      Advisories(packages, n - 1) + (if IsCopyleft(LicenseOf(p)) then [Advisory(p.name, LicenseOf(p))] else [])
  }

  /** The rows a fetch adds: one per package when it answers 200, none otherwise. */
  function RepoRows(org: string, repo: string, response: Response<seq<Package>>): seq<seq<string>> {
    if response.status == OK then Rows(org, repo, response.body, |response.body|) else []
  }

  /** One row per package, in package order: organization, repository, package
      name, and the concluded license or "Unknown" when it is absent. The row
      does not depend on whether the license is flagged. */
  lemma {:induction false} RowsShape(org: string, repo: string, packages: seq<Package>, n: nat)
    requires n <= |packages|
    ensures |Rows(org, repo, packages, n)| == n
    ensures forall k :: 0 <= k < n ==>
      Rows(org, repo, packages, n)[k] == [org, repo, packages[k].name,
        if packages[k].licenseConcluded.None? then UNKNOWN else packages[k].licenseConcluded.value]
  {
    if n > 0 {
      RowsShape(org, repo, packages, n - 1);
    }
  }

  /** The positions, among the first `n` packages, of those whose license is flagged. */
  function Flagged(packages: seq<Package>, n: nat): set<int>
    requires n <= |packages|
  {
    set k | 0 <= k < n && IsCopyleft(LicenseOf(packages[k]))
  }

  /** An advisory is printed exactly for the packages whose license is flagged,
      naming that package and its license. */
  lemma {:induction false} AdvisoriesExact(packages: seq<Package>, n: nat, a: Advisory)
    requires n <= |packages|
    ensures a in Advisories(packages, n) <==>
      exists k :: 0 <= k < n && IsCopyleft(LicenseOf(packages[k]))
        && a == Advisory(packages[k].name, LicenseOf(packages[k]))
  {
    if n > 0 {
      AdvisoriesExact(packages, n - 1, a);
    }
  }

  /** Adding package n - 1 adds its position to the flagged ones exactly when
      its license is flagged. */
  lemma FlaggedStep(packages: seq<Package>, n: nat)
    requires 0 < n <= |packages|
    ensures n - 1 !in Flagged(packages, n - 1)
    ensures Flagged(packages, n) ==
      Flagged(packages, n - 1) + (if IsCopyleft(LicenseOf(packages[n - 1])) then {n - 1} else {})
  {
  }

  /** One advisory per flagged package: two flagged packages give two
      advisories even when their names and licenses agree. */
  lemma {:induction false} AdvisoriesCount(packages: seq<Package>, n: nat)
    requires n <= |packages|
    ensures |Advisories(packages, n)| == |Flagged(packages, n)| <= n
  {
    if n == 0 {
      assert Flagged(packages, 0) == {};
    } else {
      AdvisoriesCount(packages, n - 1);
      FlaggedStep(packages, n);
    }
  }

  /** A single package licensed "GPL-3.0" gives one row with that license and
      one advisory. */
  lemma SingleGplPackage(org: string, repo: string, name: string)
    ensures Rows(org, repo, [Package(name, Some("GPL-3.0"))], 1) == [[org, repo, name, "GPL-3.0"]]
    ensures Advisories([Package(name, Some("GPL-3.0"))], 1) == [Advisory(name, "GPL-3.0")]
  {
    CopyleftExamples();
  }

  /** The progress line for one repository, with its position, and the
      advisories printed for it. */
  datatype Report = Report(repo: string, index: int, total: int, fetched: bool, advisories: seq<Advisory>)

  /** The report for `repo` once the guard has let its fetch through. */
  function ReportFor(api: Api, repo: string, index: int, total: int): Report {
    var response := api.sbom(repo);
    Report(repo, index, total, response.status == OK,
      if response.status == OK then Advisories(response.body, |response.body|) else [])
  }

  /** get_repo_dependencies: hold for quota, fetch the SBOM, and on a 200 reply
      append one row per package; any other reply appends nothing and returns
      normally. */
  method GetRepoDependencies(api: Api, endpoint: RateLimit.Endpoint, file: Csv.CsvFile,
                             org: string, repo: string, index: int, repoCount: int)
    returns (r: Step<Report>)
    requires endpoint.Valid()
    modifies endpoint, file
    ensures endpoint.Valid() && endpoint.replies == old(endpoint.replies)
    ensures endpoint.next == RateLimit.GuardFrom(endpoint.replies, old(endpoint.next)).polls
    ensures r.Ok? <==> RateLimit.GuardFrom(endpoint.replies, old(endpoint.next)).Released?
    ensures r.Ok? ==> r.value == ReportFor(api, repo, index, repoCount)
    ensures r.Ok? ==> file.rows == old(file.rows) + RepoRows(org, repo, api.sbom(repo))
    ensures !r.Ok? ==> file.rows == old(file.rows)
    ensures !r.Ok? ==>
      r == if RateLimit.GuardFrom(endpoint.replies, old(endpoint.next)).Failed? then Fatal(ERR_RATE_LIMIT) else Stalled
  {
    var g := endpoint.HoldUntilRateLimitSuccess();
    if !g.Released? {
      return RateLimit.After(g, Stalled);
    }
    var response := api.sbom(repo);
    if response.status != OK {
      return Ok(Report(repo, index, repoCount, false, []));
    }
    var advisories := WritePackages(file, org, repo, response.body);
    r := Ok(Report(repo, index, repoCount, true, advisories));
  }

  /** Writing package `i` after the rows `base` appends its row. */
  lemma RowsNext(org: string, repo: string, packages: seq<Package>, i: nat, base: seq<seq<string>>)
    requires i < |packages|
    ensures (base + Rows(org, repo, packages, i)) + [Row(org, repo, packages[i])]
      == base + Rows(org, repo, packages, i + 1)
  {
  }

  /** Checking package `i` appends an advisory exactly when its license is flagged. */
  lemma AdvisoriesNext(packages: seq<Package>, i: nat)
    requires i < |packages|
    ensures Advisories(packages, i + 1) == Advisories(packages, i)
      + (if IsCopyleft(LicenseOf(packages[i])) then [Advisory(packages[i].name, LicenseOf(packages[i]))] else [])
  {
  }

  /** The package loop of get_repo_dependencies: one row per package, in
      order, and an advisory for each flagged license. */
  method WritePackages(file: Csv.CsvFile, org: string, repo: string, packages: seq<Package>)
    returns (advisories: seq<Advisory>)
    modifies file
    ensures file.rows == old(file.rows) + Rows(org, repo, packages, |packages|)
    ensures advisories == Advisories(packages, |packages|)
  {
    advisories := [];
    var i := 0;
    while i < |packages|
      invariant 0 <= i <= |packages|
      invariant file.rows == old(file.rows) + Rows(org, repo, packages, i)
      invariant advisories == Advisories(packages, i)
    {
      var p := packages[i];
      var license := if p.licenseConcluded.None? then UNKNOWN else p.licenseConcluded.value;
      assert license == LicenseOf(p);
      AdvisoriesNext(packages, i);
      RowsNext(org, repo, packages, i, old(file.rows));
      if Contains(Upper(license), COPYLEFT_MARK) {
        advisories := advisories + [Advisory(p.name, license)];
      }
      file.AppendRow([org, repo, p.name, license]);
      i := i + 1;
    }
  }
}
