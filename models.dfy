/** The values the reviewer-assignment service passes around: identifiers, the
    user, team and pull-request records it returns, and its tagged errors. */
module Models {

  type UserId = string
  type TeamName = string
  type PrId = string

  datatype Option<T> = None | Some(value: T)

  /** Lifecycle of a pull request; MERGED is terminal. */
  datatype Status = Open | Merged

  /** A user as returned to callers (`models.User`). */
  datatype User = User(id: UserId, username: string, teamName: TeamName, isActive: bool)

  /** A team with its member list (`models.Team`). */
  datatype Team = Team(name: TeamName, members: seq<User>)

  /** A pull request as returned to callers (`models.PullRequest`); times are clock readings. */
  datatype PullRequest = PullRequest(
    id: PrId,
    name: string,
    authorId: UserId,
    status: Status,
    assignedReviewers: seq<UserId>,
    createdAt: nat,
    mergedAt: Option<nat>)

  /** The sentinel errors of the storage layer, compared by identity. */
  datatype Error =
    | TeamExists
    | PRExists
    | PRMerged
    | NotFound
    | NotAssigned
    | NoCandidate
    | AuthorNotFound

  datatype Result<T> = Ok(value: T) | Err(error: Error)

  /** The result of an operation that returns only an error or nothing. */
  datatype Outcome = Done | Failed(error: Error)

  /** What a successful reassignment returns: the updated pull request and the new reviewer. */
  datatype Reassignment = Reassignment(pr: PullRequest, newReviewer: UserId)
}
