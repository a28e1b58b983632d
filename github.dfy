/** The GitHub REST API as the inventory script sees it: every reply is a status
    code and a decoded JSON body, and the script's fatal exits become values. */
module GitHub {

  datatype Option<+T> = None | Some(value: T)

  /** One HTTP reply: its status code and its decoded JSON body. */
  datatype Response<T> = Response(status: int, body: T)

  const OK := 200

  /** The two counters read from the organization's metadata. */
  datatype OrgInfo = OrgInfo(ownedPrivateRepos: int, publicRepos: int)

  /** One entry of a repository-listing page; the flags only decide the filter. */
  datatype RepoRecord = RepoRecord(name: string, archived: bool, disabled: bool, isTemplate: bool)

  /** One entry of `sbom.packages`; `licenseConcluded` may be absent. */
  datatype Package = Package(name: string, licenseConcluded: Option<string>)

  /** What the API answers, as a function of the request: the organization
      lookup, the listing page with a given number, and a repository's SBOM. */
  datatype Api = Api(
    org: Response<OrgInfo>,
    listing: int -> Response<seq<RepoRecord>>,
    sbom: string -> Response<seq<Package>>)

  /** How a step of the script ends: it returns a value, it prints a diagnostic
      and exits with status 1, or it is still sleeping in the rate-limit guard
      when the modelled replies of the rate-limit endpoint run out. */
  datatype Step<T> = Ok(value: T) | Fatal(reason: string) | Stalled

  const ERR_RATE_LIMIT := "Error fetching rate limit info"
  const ERR_ORG := "Error fetching org info"
  const ERR_REPOS := "Error fetching repos"
}
