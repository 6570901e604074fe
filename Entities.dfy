/**
 * The domain entities of the pull-request service: users, teams, pull
 * requests, their status values and the entity-level error values.
 */
module Entities {
  import opened Wrappers

  /** Go's int64. */
  newtype Int64 = x: int | -0x8000_0000_0000_0000 <= x < 0x8000_0000_0000_0000

  type UserID = Int64
  type TeamID = Int64

  /** The pull-request identifier; its Go declaration is not part of this model, so it is an opaque string. */
  type PullRequestID = string

  /** A point in time as returned by the clock; the clock itself is a parameter. */
  type Time = int

  /** A member of a team. */
  datatype User = User(id: UserID, name: string, isActive: bool)

  /** The zero value of User. */
  const ZeroUser: User := User(0, "", false)

  /** A group of users. */
  datatype Team = Team(id: TeamID, name: string, members: seq<User>)

  /**
   * The team a caller fills in: the member slice is made with LENGTH 250,
   * so it already holds 250 zero users.
   */
  function NewTeam(): (t: Team)
    ensures t.id == 0 && t.name == ""
    ensures |t.members| == 250
    ensures forall i :: 0 <= i < |t.members| ==> t.members[i] == ZeroUser
  {
    Team(0, "", seq(250, _ => ZeroUser))
  }

  /** The status of a pull request is a string; two values are named. */
  type PullRequestStatus = string

  const Open: PullRequestStatus := "OPEN"
  const Merged: PullRequestStatus := "MERGED"

  lemma StatusValues()
    ensures Open == "OPEN" && Merged == "MERGED" && Open != Merged
  {
  }

  /** The entity-level error values. */
  datatype Error = ErrReviewerAssign | ErrStatusForReassign | ErrReviewerIsWrong

  /**
   * A pull request. Its timestamps are optional (absent until stamped) and its
   * reviewers are keyed by user id.
   */
  class PullRequest {
    var id: PullRequestID
    var name: string
    var status: PullRequestStatus
    var createdAt: Option<Time>
    var mergedAt: Option<Time>
    var author: User
    var reviewers: map<UserID, User>

    constructor (id: PullRequestID, name: string, status: PullRequestStatus,
                 createdAt: Option<Time>, mergedAt: Option<Time>,
                 author: User, reviewers: map<UserID, User>)
      ensures this.id == id && this.name == name && this.status == status
      ensures this.createdAt == createdAt && this.mergedAt == mergedAt
      ensures this.author == author && this.reviewers == reviewers
    {
      this.id := id;
      this.name := name;
      this.status := status;
      this.createdAt := createdAt;
      this.mergedAt := mergedAt;
      this.author := author;
      this.reviewers := reviewers;
    }

    /** Stamps the creation time with the clock's current reading `now`. */
    method SetCreatedAtNow(now: Time)
      modifies this
      ensures createdAt == Some(now)
      ensures id == old(id) && name == old(name) && status == old(status)
      ensures mergedAt == old(mergedAt) && author == old(author) && reviewers == old(reviewers)
    {
      createdAt := Some(now);
    }

    /**
     * Stamps the merge time with `now`. The status is left as it was: stamping
     * does not by itself make the pull request MERGED.
     */
    method SetMergedAtNow(now: Time)
      modifies this
      ensures mergedAt == Some(now)
      ensures status == old(status)
      ensures id == old(id) && name == old(name) && createdAt == old(createdAt)
      ensures author == old(author) && reviewers == old(reviewers)
    {
      mergedAt := Some(now);
    }
  }
}
