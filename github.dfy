/**
 * The records the program receives from the GitHub API (octocrab's models), reduced to the
 * fields the core reads. Numbers and ids are unbounded naturals; a timestamp is an `int`
 * instant, ordered as time is.
 */
module GitHub {
  import opened Wrappers

  datatype User = User(login: string)

  datatype Organization = Organization(login: string)

  /** One of the viewer's teams, as `/user/teams` lists it. */
  datatype Team = Team(id: nat, name: string, organization: Option<Organization>)

  /** A team whose review was requested on a pull request; the API may leave its id out. */
  datatype RequestedTeam = RequestedTeam(id: Option<nat>, name: string)

  /** A pull request as listed by the API; every optional field of the API stays optional. */
  datatype GhPullRequest = GhPullRequest(
    number: nat,
    title: Option<string>,
    author: Option<User>,
    htmlUrl: Option<string>,
    body: Option<string>,
    updatedAt: Option<int>,
    requestedReviewers: Option<seq<User>>,
    requestedTeams: Option<seq<RequestedTeam>>,
    assignees: Option<seq<User>>)

  /** A review comment: its body is always present, its author may not be. */
  datatype Comment = Comment(body: string, user: Option<User>)

  /** One changed file of a pull request, with its line counts. */
  datatype DiffFile = DiffFile(filename: string, additions: nat, deletions: nat)

  /** An error reported by an API call; its content is opaque to the core. */
  datatype ApiError = ApiError(message: string)

  /**
   * Why a run stops: an API error propagated by `?`, or a panic of an `unwrap`
   * (a task the runtime could not join, or a pull request number that is not in the listing).
   */
  datatype Failure = Api(error: ApiError) | Panic(reason: PanicReason)

  datatype PanicReason = TaskJoinFailed | PrNotFound(number: nat)

  /**
   * What awaiting one spawned task yields: a join failure of the runtime, or the task's own
   * `Result`. A completion stream is a sequence of these, in whatever order the tasks finished.
   */
  datatype JoinOutcome<+T> = JoinFailed | Joined(result: Result<T, ApiError>)
}
