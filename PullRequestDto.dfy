/**
 * The transfer views of a pull request: the full view, which lists reviewer
 * ids, and the short view; conversions between them and the entity.
 */
module PullRequestDto {
  import opened Wrappers
  import opened Entities

  datatype PullRequestDTO = PullRequestDTO(
    id: PullRequestID,
    name: string,
    status: PullRequestStatus,
    createdAt: Option<Time>,
    mergedAt: Option<Time>,
    authorID: UserID,
    reviewers: seq<UserID>)

  datatype PullRequestDTOShort = PullRequestDTOShort(
    id: PullRequestID,
    name: string,
    status: PullRequestStatus,
    authorID: UserID)

  /** The set of ids a list holds. */
  function Elems(s: seq<UserID>): set<UserID>
  {
    set x | x in s
  }

  predicate Distinct(s: seq<UserID>)
  {
    forall i, j :: 0 <= i < j < |s| ==> s[i] != s[j]
  }

  /** A list holds at most as many ids as it is long, and exactly as many when no id repeats. */
  lemma {:induction false} ElemsSize(s: seq<UserID>)
    ensures |Elems(s)| <= |s|
    ensures |Elems(s)| == |s| <==> Distinct(s)
  {
    if s != [] {
      var t := s[1..];
      ElemsSize(t);
      assert Elems(s) == {s[0]} + Elems(t);
      if s[0] in t {
        assert Elems(s) == Elems(t);
        var j :| 0 <= j < |t| && t[j] == s[0];
        assert s[0] == s[j + 1];
      } else {
        assert Distinct(s) <==> Distinct(t) by {
          if Distinct(t) {
            forall i, j | 0 <= i < j < |s| ensures s[i] != s[j] {
              if i > 0 { assert s[i] == t[i - 1] && s[j] == t[j - 1]; }
              else { assert s[j] == t[j - 1]; }
            }
          }
          if Distinct(s) {
            forall i, j | 0 <= i < j < |t| ensures t[i] != t[j] {
              assert t[i] == s[i + 1] && t[j] == s[j + 1];
            }
          }
        }
      }
    }
  }

  /** The view a caller starts from: no timestamps and an empty reviewer list. */
  function NewPullRequestDTO(): (d: PullRequestDTO)
    ensures d.reviewers == []
    ensures d.createdAt == None && d.mergedAt == None
    ensures d.id == "" && d.name == "" && d.status == "" && d.authorID == 0
  {
    PullRequestDTO("", "", "", None, None, 0, [])
  }

  /** The short view of an entity. */
  function PullRequestToPullRequestDTOShort(pr: PullRequest): (s: PullRequestDTOShort)
    reads pr
    ensures s.id == pr.id && s.name == pr.name && s.status == pr.status
    ensures s.authorID == pr.author.id
  {
    PullRequestDTOShort(pr.id, pr.name, pr.status, pr.author.id)
  }

  /** The short view of a full view. */
  function MakePullRequestDTOShort(d: PullRequestDTO): (s: PullRequestDTOShort)
    ensures s.id == d.id && s.name == d.name && s.status == d.status
    ensures s.authorID == d.authorID
  {
    PullRequestDTOShort(d.id, d.name, d.status, d.authorID)
  }

  /** `order` lists every key of `m` exactly once. */
  ghost predicate KeyOrder(order: seq<UserID>, m: map<UserID, User>)
  {
    && (forall i :: 0 <= i < |order| ==> order[i] in m)
    && (forall k :: k in m ==> k in order)
    && Distinct(order)
  }

  /**
   * `ids` lists the ids of the reviewer values of `m`, one entry per key, in
   * some order of the keys.
   */
  ghost predicate ListsReviewers(ids: seq<UserID>, m: map<UserID, User>)
  {
    exists order :: KeyOrder(order, m) && |order| == |ids| &&
      forall i :: 0 <= i < |ids| ==> ids[i] == m[order[i]].id
  }

  lemma KeyOrderSize(order: seq<UserID>, m: map<UserID, User>)
    requires KeyOrder(order, m)
    ensures |order| == |m|
  {
    ElemsSize(order);
    assert Elems(order) == m.Keys;
  }

  /** A reviewer list has exactly one entry per reviewer. */
  lemma ListsReviewersSize(ids: seq<UserID>, m: map<UserID, User>)
    requires ListsReviewers(ids, m)
    ensures |ids| == |m|
  {
    var order :| KeyOrder(order, m) && |order| == |ids| &&
      forall i :: 0 <= i < |ids| ==> ids[i] == m[order[i]].id;
    KeyOrderSize(order, m);
  }

  /** An id is in a reviewer list exactly when some reviewer value carries it. */
  lemma ListsReviewersMembers(ids: seq<UserID>, m: map<UserID, User>)
    requires ListsReviewers(ids, m)
    ensures forall x :: x in ids <==> exists k :: k in m && m[k].id == x
  {
    var order :| KeyOrder(order, m) && |order| == |ids| &&
      forall i :: 0 <= i < |ids| ==> ids[i] == m[order[i]].id;
    forall x | x in ids
      ensures exists k :: k in m && m[k].id == x
    {
      var i :| 0 <= i < |ids| && ids[i] == x;
      assert order[i] in m && m[order[i]].id == x;
    }
    forall x | exists k :: k in m && m[k].id == x
      ensures x in ids
    {
      var k :| k in m && m[k].id == x;
      var i :| 0 <= i < |order| && order[i] == k;
      assert ids[i] == x;
    }
  }

  /** What the entity-to-view conversion promises. */
  ghost predicate IsDTOOf(d: PullRequestDTO, pr: PullRequest)
    reads pr
  {
    && d.id == pr.id && d.name == pr.name && d.status == pr.status
    && d.authorID == pr.author.id
    && d.createdAt == pr.createdAt && d.mergedAt == pr.mergedAt
    && ListsReviewers(d.reviewers, pr.reviewers)
  }

  /**
   * Entity to full view. Reviewers are visited in the map's (unspecified)
   * iteration order, so the list order is any order of the keys.
   */
  method PullRequestToPullRequestDTO(pr: PullRequest) returns (dto: PullRequestDTO)
    ensures IsDTOOf(dto, pr)
    ensures |dto.reviewers| == |pr.reviewers|
    ensures MakePullRequestDTOShort(dto) == PullRequestToPullRequestDTOShort(pr)
  {
    dto := PullRequestDTO(pr.id, pr.name, pr.status, None, None, pr.author.id, []);
    if pr.createdAt.Some? {
      dto := dto.(createdAt := Some(pr.createdAt.value));
    }
    if pr.mergedAt.Some? {
      dto := dto.(mergedAt := Some(pr.mergedAt.value));
    }
    var remaining := pr.reviewers.Keys;
    ghost var order: seq<UserID> := [];
    while remaining != {}
      invariant remaining <= pr.reviewers.Keys
      invariant forall i :: 0 <= i < |order| ==> order[i] in pr.reviewers && order[i] !in remaining
      invariant forall k :: k in pr.reviewers ==> k in order || k in remaining
      invariant Distinct(order)
      invariant |order| == |dto.reviewers|
      invariant forall i :: 0 <= i < |order| ==> dto.reviewers[i] == pr.reviewers[order[i]].id
      invariant dto.id == pr.id && dto.name == pr.name && dto.status == pr.status
      invariant dto.authorID == pr.author.id
      invariant dto.createdAt == pr.createdAt && dto.mergedAt == pr.mergedAt
      decreases remaining
    {
      var k :| k in remaining;
      dto := dto.(reviewers := dto.reviewers + [pr.reviewers[k].id]);
      order := order + [k];
      remaining := remaining - {k};
    }
    assert KeyOrder(order, pr.reviewers);
    KeyOrderSize(order, pr.reviewers);
  }

  /** The reviewer map built from a list of ids, later entries overwriting earlier ones. */
  function ReviewersFromIDs(ids: seq<UserID>): map<UserID, User>
  {
    if ids == [] then map[]
    else
      var last := ids[|ids| - 1];
      ReviewersFromIDs(ids[..|ids| - 1])[last := User(last, "", false)]
  }

  /**
   * The map's keys are exactly the listed ids, each mapped to a user that
   * carries only that id; so a list with repeats yields fewer reviewers.
   */
  lemma {:induction false} ReviewersFromIDsShape(ids: seq<UserID>)
    ensures ReviewersFromIDs(ids).Keys == Elems(ids)
    ensures forall k :: k in ReviewersFromIDs(ids) ==> ReviewersFromIDs(ids)[k] == User(k, "", false)
    ensures |ReviewersFromIDs(ids)| <= |ids|
    ensures |ReviewersFromIDs(ids)| == |ids| <==> Distinct(ids)
  {
    if ids != [] {
      var init := ids[..|ids| - 1];
      ReviewersFromIDsShape(init);
      assert ids == init + [ids[|ids| - 1]];
      assert Elems(ids) == Elems(init) + {ids[|ids| - 1]};
    }
    ElemsSize(ids);
  }

  /** What the view-to-entity conversion promises. */
  ghost predicate IsEntityOf(pr: PullRequest, d: PullRequestDTO)
    reads pr
  {
    && pr.id == d.id && pr.name == d.name && pr.status == d.status
    && pr.author == User(d.authorID, "", false)
    && pr.createdAt == d.createdAt && pr.mergedAt == d.mergedAt
    && pr.reviewers == ReviewersFromIDs(d.reviewers)
  }

  /** Full view to entity: the author and the reviewers carry only their ids. */
  method PullRequestDTOToPullRequest(d: PullRequestDTO) returns (pr: PullRequest)
    ensures fresh(pr)
    ensures IsEntityOf(pr, d)
    ensures pr.reviewers.Keys == Elems(d.reviewers)
    ensures forall k :: k in pr.reviewers ==> pr.reviewers[k] == User(k, "", false)
  {
    pr := new PullRequest(d.id, d.name, d.status, None, None, User(d.authorID, "", false), map[]);
    if d.createdAt.Some? {
      pr.createdAt := Some(d.createdAt.value);
    }
    if d.mergedAt.Some? {
      pr.mergedAt := Some(d.mergedAt.value);
    }
    var i := 0;
    while i < |d.reviewers|
      invariant 0 <= i <= |d.reviewers|
      invariant pr.reviewers == ReviewersFromIDs(d.reviewers[..i])
      invariant pr.id == d.id && pr.name == d.name && pr.status == d.status
      invariant pr.author == User(d.authorID, "", false)
      invariant pr.createdAt == d.createdAt && pr.mergedAt == d.mergedAt
    {
      var userID := d.reviewers[i];
      pr.reviewers := pr.reviewers[userID := User(userID, "", false)];
      assert d.reviewers[..i + 1][..i] == d.reviewers[..i];
      i := i + 1;
    }
    assert d.reviewers[..i] == d.reviewers;
    ReviewersFromIDsShape(d.reviewers);
  }

  /**
   * View -> entity -> view keeps every scalar, both timestamps and the set of
   * reviewer ids; repeated ids come back once.
   */
  lemma DtoRoundTrip(d: PullRequestDTO, pr: PullRequest, d2: PullRequestDTO)
    requires IsEntityOf(pr, d)
    requires IsDTOOf(d2, pr)
    ensures d2.id == d.id && d2.name == d.name && d2.status == d.status
    ensures d2.authorID == d.authorID
    ensures d2.createdAt == d.createdAt && d2.mergedAt == d.mergedAt
    ensures Elems(d2.reviewers) == Elems(d.reviewers)
    ensures |d2.reviewers| == |Elems(d.reviewers)|
  {
    ReviewersFromIDsShape(d.reviewers);
    ListsReviewersSize(d2.reviewers, pr.reviewers);
    ListsReviewersMembers(d2.reviewers, pr.reviewers);
    var m := pr.reviewers;
    forall x ensures x in Elems(d2.reviewers) <==> x in Elems(d.reviewers) {
      if x in Elems(d.reviewers) {
        assert x in m && m[x].id == x;
      }
    }
  }

  /**
   * Entity -> view -> entity keeps the scalars, the timestamps, the author id
   * and the reviewer keys, provided each reviewer value carries its own key.
   */
  lemma EntityRoundTrip(pr: PullRequest, d: PullRequestDTO, pr2: PullRequest)
    requires forall k :: k in pr.reviewers ==> pr.reviewers[k].id == k
    requires IsDTOOf(d, pr)
    requires IsEntityOf(pr2, d)
    ensures pr2.id == pr.id && pr2.name == pr.name && pr2.status == pr.status
    ensures pr2.author.id == pr.author.id
    ensures pr2.createdAt == pr.createdAt && pr2.mergedAt == pr.mergedAt
    ensures pr2.reviewers.Keys == pr.reviewers.Keys
  {
    ReviewersFromIDsShape(d.reviewers);
    ListsReviewersMembers(d.reviewers, pr.reviewers);
    forall x ensures x in pr2.reviewers <==> x in pr.reviewers {
      if x in pr.reviewers {
        assert pr.reviewers[x].id == x;
      }
    }
  }
}
