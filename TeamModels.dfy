/**
 * The team part of the PostgreSQL repository. Database reads are inputs;
 * statements the repository would execute are returned as Write values.
 */
module TeamModels {
  import opened Wrappers
  import opened Entities

  /**
   * The repository-level error values a team operation can end with. A failed
   * team lookup is not among them: it is the `NotFound` outcome of `Lookup`.
   */
  datatype RepoError = ErrQueryExec | ErrResProcessing | ErrModelAlreadyExists

  /** SQL spelling of a boolean. */
  function GetSqlViewBool(val: bool): (s: string)
    ensures s == "TRUE" || s == "FALSE"
    ensures s == "TRUE" <==> val
  {
    if val then "TRUE" else "FALSE"
  }

  /** One row of the member insert; the textual rendering of its values is not modelled. */
  datatype Row = Row(id: UserID, name: string, isActive: string, teamID: TeamID)

  function RowOf(user: User, teamID: TeamID): Row
  {
    Row(user.id, user.name, GetSqlViewBool(user.isActive), teamID)
  }

  function Rows(list: seq<User>, teamID: TeamID): (rows: seq<Row>)
    ensures |rows| == |list|
    ensures forall i :: 0 <= i < |list| ==> rows[i] == RowOf(list[i], teamID)
  {
    seq(|list|, i requires 0 <= i < |list| => RowOf(list[i], teamID))
  }

  /** A piece of the member insert statement: literal SQL text or one row of values. */
  datatype Fragment = Literal(text: string) | Values(row: Row)

  const InsertMembers: string := "\nINSERT INTO users (id, username, is_active, team_id)\nVALUES "
  const RowSeparator: string := ",\n"

  /** Rows joined by separators, as the statement lists them. */
  function Join(rows: seq<Row>): seq<Fragment>
  {
    if |rows| <= 1 then (if rows == [] then [] else [Values(rows[0])])
    else Join(rows[..|rows| - 1]) + [Literal(RowSeparator), Values(rows[|rows| - 1])]
  }

  /** The rows a list of fragments carries, in order. */
  function RowsIn(q: seq<Fragment>): seq<Row>
  {
    if q == [] then []
    else RowsIn(q[..|q| - 1]) + (if q[|q| - 1].Values? then [q[|q| - 1].row] else [])
  }

  lemma {:induction false} RowsInAppend(a: seq<Fragment>, b: seq<Fragment>)
    ensures RowsIn(a + b) == RowsIn(a) + RowsIn(b)
  {
    if b != [] {
      var b' := b[..|b| - 1];
      RowsInAppend(a, b');
      assert (a + b)[..|a + b| - 1] == a + b';
      assert (a + b)[|a + b| - 1] == b[|b| - 1];
    } else {
      assert a + b == a;
    }
  }

  /**
   * Rows at the even positions, in order, and a separator at every odd one:
   * one separator fewer than rows, the first and the last fragment being rows.
   */
  lemma {:induction false} JoinLayout(rows: seq<Row>)
    ensures |Join(rows)| == if rows == [] then 0 else 2 * |rows| - 1
    ensures forall i :: 0 <= i < |Join(rows)| ==>
      Join(rows)[i] == if i % 2 == 0 then Values(rows[i / 2]) else Literal(RowSeparator)
    ensures multiset(Join(rows))[Literal(RowSeparator)] == if rows == [] then 0 else |rows| - 1
    ensures rows != [] ==> Join(rows)[0] == Values(rows[0])
    ensures rows != [] ==> Join(rows)[|Join(rows)| - 1] == Values(rows[|rows| - 1])
  {
    if |rows| > 1 {
      var init := rows[..|rows| - 1];
      var n := |rows|;
      JoinLayout(init);
      assert multiset([Literal(RowSeparator), Values(rows[n - 1])])[Literal(RowSeparator)] == 1;
      forall i | 0 <= i < |Join(rows)|
        ensures Join(rows)[i] == if i % 2 == 0 then Values(rows[i / 2]) else Literal(RowSeparator)
      {
        if i < 2 * n - 3 {
          assert Join(rows)[i] == Join(init)[i];
          assert i / 2 < n - 1;
          assert init[i / 2] == rows[i / 2];
        } else if i == 2 * n - 3 {
          assert i % 2 == 1;
        } else {
          assert i / 2 == n - 1;
        }
      }
    }
  }

  /** Reading the rows back from the joined fragments gives exactly the rows joined, in order. */
  lemma {:induction false} JoinRowsIn(rows: seq<Row>)
    ensures RowsIn(Join(rows)) == rows
  {
    if |rows| == 1 {
      assert RowsIn([Values(rows[0])]) == RowsIn([]) + [rows[0]];
    } else if |rows| > 1 {
      var init := rows[..|rows| - 1];
      var last := rows[|rows| - 1];
      JoinRowsIn(init);
      RowsInAppend(Join(init), [Literal(RowSeparator), Values(last)]);
      assert RowsIn([Literal(RowSeparator), Values(last)]) == RowsIn([Literal(RowSeparator)]) + [last];
      assert RowsIn([Literal(RowSeparator)]) == RowsIn([]) + [];
      assert rows == init + [last];
    }
  }

  /** Appending the next row to a statement built up to `idx` rows gives the statement built up to `idx + 1` rows. */
  lemma JoinStep(rows: seq<Row>, idx: nat, q: seq<Fragment>)
    requires idx < |rows|
    requires q == [Literal(InsertMembers)] + Join(rows[..idx]) + (if idx == 0 then [] else [Literal(RowSeparator)])
    ensures q + [Values(rows[idx])] == [Literal(InsertMembers)] + Join(rows[..idx + 1])
  {
    assert rows[..idx + 1][..idx] == rows[..idx];
  }

  /**
   * The member insert for `list`. Nothing is issued when the TEAM has no
   * members; the test is on the team, so an empty `list` with a non-empty
   * team still yields the bare statement prefix.
   */
  method AddMembersList(list: seq<User>, team: Team) returns (query: Option<seq<Fragment>>)
    ensures query.None? <==> |team.members| == 0
    ensures query.Some? ==> query.value == [Literal(InsertMembers)] + Join(Rows(list, team.id))
  {
    if |team.members| == 0 {
      return None;
    }
    var q := [Literal(InsertMembers)];
    ghost var rows := Rows(list, team.id);
    for idx := 0 to |list|
      invariant q == [Literal(InsertMembers)] + Join(rows[..idx])
                     + (if 0 < idx < |list| then [Literal(RowSeparator)] else [])
    {
      JoinStep(rows, idx, q);
      q := q + [Values(RowOf(list[idx], team.id))];
      if idx != |list| - 1 {
        q := q + [Literal(RowSeparator)];
      }
    }
    assert rows[..|list|] == rows;
    query := Some(q);
  }

  /** Some stored member has id `id`. */
  predicate Known(stored: seq<User>, id: UserID)
  {
    exists j :: 0 <= j < |stored| && stored[j].id == id
  }

  /** The incoming members split into (already stored, new), each in incoming order. */
  function Partition(incoming: seq<User>, stored: seq<User>): (seq<User>, seq<User>)
  {
    if incoming == [] then ([], [])
    else
      var p := Partition(incoming[..|incoming| - 1], stored);
      var u := incoming[|incoming| - 1];
      if Known(stored, u.id) then (p.0 + [u], p.1) else (p.0, p.1 + [u])
  }

  /** Every incoming member lands in exactly one of the two lists, and they hold nothing else. */
  lemma {:induction false} PartitionCovers(incoming: seq<User>, stored: seq<User>)
    ensures multiset(Partition(incoming, stored).0) + multiset(Partition(incoming, stored).1) == multiset(incoming)
    ensures |Partition(incoming, stored).0| + |Partition(incoming, stored).1| == |incoming|
  {
    if incoming != [] {
      var init := incoming[..|incoming| - 1];
      var u := incoming[|incoming| - 1];
      PartitionCovers(init, stored);
      assert incoming == init + [u];
      assert multiset(incoming) == multiset(init) + multiset{u};
    }
  }

  /** The update list holds only members a stored member shares an id with; the add list only the others. */
  lemma {:induction false} PartitionSorts(incoming: seq<User>, stored: seq<User>)
    ensures forall u :: u in Partition(incoming, stored).0 ==> Known(stored, u.id)
    ensures forall u :: u in Partition(incoming, stored).1 ==> !Known(stored, u.id)
  {
    if incoming != [] {
      PartitionSorts(incoming[..|incoming| - 1], stored);
    }
  }

  lemma PartitionClassifies(incoming: seq<User>, stored: seq<User>, u: User)
    requires u in incoming
    ensures u in Partition(incoming, stored).0 <==> Known(stored, u.id)
    ensures u in Partition(incoming, stored).1 <==> !Known(stored, u.id)
  {
    PartitionCovers(incoming, stored);
    PartitionSorts(incoming, stored);
    var p := Partition(incoming, stored);
    assert multiset(incoming)[u] > 0;
    assert u in multiset(p.0) || u in multiset(p.1);
  }

  /** Splitting a concatenation splits each part in place: both lists keep the incoming order. */
  lemma {:induction false} PartitionAppend(a: seq<User>, b: seq<User>, stored: seq<User>)
    ensures Partition(a + b, stored).0 == Partition(a, stored).0 + Partition(b, stored).0
    ensures Partition(a + b, stored).1 == Partition(a, stored).1 + Partition(b, stored).1
  {
    if b != [] {
      var b' := b[..|b| - 1];
      PartitionAppend(a, b', stored);
      assert (a + b)[..|a + b| - 1] == a + b';
      assert (a + b)[|a + b| - 1] == b[|b| - 1];
    } else {
      assert a + b == a;
    }
  }

  /** A statement the repository would execute. */
  datatype Write =
    | InsertTeam(name: string)
    | InsertMembersQuery(query: seq<Fragment>)
    | UpdateMembers(users: seq<User>, teamID: TeamID)  // one UPDATE per listed user

  /**
   * Upserts the members of `team` given the stored members read for its name:
   * members already stored are updated with their incoming values, the others
   * inserted.
   */
  method UpdateTeam(team: Team, stored: Result<seq<User>, RepoError>)
    returns (updateList: seq<User>, addList: seq<User>, writes: seq<Write>, err: Option<RepoError>)
    ensures stored.Failure? ==> err == Some(ErrQueryExec) && writes == []
    ensures stored.Success? ==>
      && err == None
      && (updateList, addList) == Partition(team.members, stored.value)
      && writes == (if |team.members| == 0 then []
                    else [InsertMembersQuery([Literal(InsertMembers)] + Join(Rows(addList, team.id)))])
                   + [UpdateMembers(updateList, team.id)]
  {
    updateList, addList := [], [];
    if stored.Failure? {
      return updateList, addList, [], Some(ErrQueryExec);
    }
    var members := stored.value;
    for i := 0 to |team.members|
      invariant (updateList, addList) == Partition(team.members[..i], members)
    {
      var newUser := team.members[i];
      assert team.members[..i + 1][..i] == team.members[..i];
      ghost var before := updateList;
      var flagExists := false;
      var j := 0;
      while j < |members|
        invariant 0 <= j <= |members|
        invariant !flagExists ==> updateList == before && forall k :: 0 <= k < j ==> members[k].id != newUser.id
        invariant flagExists ==> updateList == before + [newUser] && Known(members, newUser.id)
      {
        if members[j].id == newUser.id {
          flagExists := true;
          updateList := updateList + [newUser];
          break;
        }
        j := j + 1;
      }
      if !flagExists {
        addList := addList + [newUser];
      }
    }
    assert team.members[..|team.members|] == team.members;
    var insert := AddMembersList(addList, team);
    writes := (if insert.Some? then [InsertMembersQuery(insert.value)] else []) + [UpdateMembers(updateList, team.id)];
    err := None;
  }

  /** The outcome of looking a team up by name: only its id and name are read. */
  datatype Lookup = Found(id: TeamID, name: string) | NotFound | LookupFailed(error: RepoError)

  /** Inserts the team row, takes the id the database assigns, then inserts the members. */
  method CreateTeamRecord(team: Team, newID: TeamID) returns (writes: seq<Write>)
    ensures |team.members| == 0 ==> writes == [InsertTeam(team.name)]
    ensures |team.members| > 0 ==>
      writes == [InsertTeam(team.name), InsertMembersQuery([Literal(InsertMembers)] + Join(Rows(team.members, newID)))]
  {
    var created := team.(id := newID);
    var insert := AddMembersList(created.members, created);
    writes := [InsertTeam(team.name)] + (if insert.Some? then [InsertMembersQuery(insert.value)] else []);
  }

  /**
   * Team creation as written: the lookup result rebinds `team`, so the
   * existing-team path upserts a record that has no members and the new-team
   * path creates the zero team (no name, no members). The incoming members
   * are never written.
   */
  method CreateTeamAsWritten(team: Team, lookup: Lookup, stored: Result<seq<User>, RepoError>, newID: TeamID)
    returns (writes: seq<Write>, err: Option<RepoError>)
    ensures lookup.LookupFailed? ==> writes == [] && err == Some(lookup.error)
    ensures lookup.Found? && stored.Failure? ==> writes == [] && err == Some(ErrQueryExec)
    ensures lookup.Found? && stored.Success? ==>
      writes == [UpdateMembers([], lookup.id)] && err == Some(ErrModelAlreadyExists)
    ensures lookup.NotFound? ==> writes == [InsertTeam("")] && err == None
    ensures forall w :: w in writes ==> !w.InsertMembersQuery? && (w.UpdateMembers? ==> w.users == [])
  {
    match lookup {
      case LookupFailed(e) =>
        return [], Some(e);
      case Found(id, name) =>
        var rebound := Team(id, name, []);
        var updateList, addList, updateWrites, updateErr := UpdateTeam(rebound, stored);
        if updateErr.Some? {
          return updateWrites, updateErr;
        }
        return updateWrites, Some(ErrModelAlreadyExists);
      case NotFound =>
        var rebound := Team(0, "", []);
        writes := CreateTeamRecord(rebound, newID);
        return writes, None;
    }
  }

  /**
   * Team creation with the incoming team kept: an existing team (reported as
   * already existing) gets its incoming members upserted under its stored id;
   * a new team is inserted under its own name with all its members.
   */
  method CreateTeam(team: Team, lookup: Lookup, stored: Result<seq<User>, RepoError>, newID: TeamID)
    returns (writes: seq<Write>, err: Option<RepoError>)
    ensures lookup.LookupFailed? ==> writes == [] && err == Some(lookup.error)
    ensures lookup.Found? && stored.Failure? ==> writes == [] && err == Some(ErrQueryExec)
    ensures lookup.Found? && stored.Success? ==>
      var (upd, add) := Partition(team.members, stored.value);
      && err == Some(ErrModelAlreadyExists)
      && writes == (if |team.members| == 0 then []
                    else [InsertMembersQuery([Literal(InsertMembers)] + Join(Rows(add, lookup.id)))])
                   + [UpdateMembers(upd, lookup.id)]
    ensures lookup.NotFound? ==> err == None && |writes| >= 1 && writes[0] == InsertTeam(team.name)
    ensures lookup.NotFound? && |team.members| == 0 ==> writes == [InsertTeam(team.name)]
    ensures lookup.NotFound? && |team.members| > 0 ==>
      |writes| == 2 && writes[1].InsertMembersQuery? && RowsIn(writes[1].query) == Rows(team.members, newID)
  {
    match lookup {
      case LookupFailed(e) =>
        return [], Some(e);
      case Found(id, name) =>
        var updateList, addList, updateWrites, updateErr := UpdateTeam(team.(id := id), stored);
        if updateErr.Some? {
          return updateWrites, updateErr;
        }
        return updateWrites, Some(ErrModelAlreadyExists);
      case NotFound =>
        writes := CreateTeamRecord(team, newID);
        if |team.members| > 0 {
          var rows := Rows(team.members, newID);
          JoinRowsIn(rows);
          RowsInAppend([Literal(InsertMembers)], Join(rows));
          assert RowsIn([Literal(InsertMembers)]) == RowsIn([]) + [];
        }
        return writes, None;
    }
  }

  /**
   * A new team "core" with one member: as written, only a nameless team row is
   * inserted; corrected, the team row carries "core" and the member gets a row.
   */
  method CreateTeamCounterexample() returns (asWritten: seq<Write>, corrected: seq<Write>)
    ensures asWritten == [InsertTeam("")]
    ensures |corrected| == 2 && corrected[0] == InsertTeam("core")
    ensures corrected[1].InsertMembersQuery? && RowsIn(corrected[1].query) == [Row(7, "alice", "TRUE", 1)]
  {
    var team := Team(0, "core", [User(7, "alice", true)]);
    var err1, err2;
    asWritten, err1 := CreateTeamAsWritten(team, NotFound, Success([]), 1);
    corrected, err2 := CreateTeam(team, NotFound, Success([]), 1);
  }
}
