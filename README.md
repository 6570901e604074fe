# pr-service core, modelled in Dafny

A model of the domain core of a pull-request review service written in Go. Teams group users. Pull requests have an author, a status (`OPEN` or `MERGED`), optional creation and merge timestamps, and reviewers keyed by user id. The model covers:

- **Reviewer candidate generator** (`ReviewerSelection`). A roster and a list of excluded user ids produce a stateful generator. Each call probes roster indices it has not tried yet, in random order. It returns the first index whose member is active and not excluded. The set of tried indices persists across calls, so successive calls draw without replacement. Once every index has been tried, the call fails with `ErrReviewerAssign` and index `-1`.
- **Pull-request entity** (`Entities`). The status values and the two timestamp setters. The clock reading is a parameter.
- **Transfer views** (`PullRequestDto`, `TeamDto`). The full pull-request view lists reviewer ids, and the short view has no reviewers. There are conversions in both directions, and a team view that keeps member order.
- **Team repository logic** (`TeamModels`). Upserting a team splits incoming members into members to update and members to add. The member insert statement is assembled from rows and separators. Team creation has an exists/not-exists control flow. Database reads are inputs, and the statements the repository would execute are returned as `Write` values.

Module layout follows the source: `Entities.dfy` for `internal/entities/{user,team,pull_request,errors}.go`, `ReviewerSelection.dfy` for `internal/entities/util.go`, `PullRequestDto.dfy` and `TeamDto.dfy` for `internal/entities/dto/`, and `TeamModels.dfy` for `internal/repo/postgres/team_models.go` together with `getSqlViewBool` from `internal/repo/postgres/util.go`. `Wrappers.dfy` holds `Option`/`Result`.

Modelling choices:
- User and team ids are Go `int64`, modelled by the newtype `Int64` (internal/entities/user.go:4).
- `PullRequestID` is used but not declared in the files modelled here, so it is an opaque `string`.
- The DTO file uses pull-request fields (`ID`, `Reviewers map[UserID]User`, pointer timestamps) that `internal/entities/pull_request.go` does not declare. The entity is therefore the superset: `id`, `name`, `status`, `createdAt`/`mergedAt: Option<Time>`, `author`, `reviewers: map<UserID, User>`. It is a class, because its setters have pointer receivers and assign in place.
- `rand.Intn` is a nondeterministic choice among the untried indices. A draw of an already-tried index changes nothing in the source, so it is not represented. The loop is then bounded by `|col| - |tried|`.
- Go's map iteration order is unspecified. The entity-to-view conversion therefore visits the keys in a nondeterministic order. Its result is specified by `ListsReviewers`: there is an order of the map's keys, each key once, such that entry `i` is the id of the reviewer stored under key `i`.
- The generator returns the roster index, as `return idx, nil` does (internal/entities/util.go:22).

## Model

| member | source | states |
|---|---|---|
| `Entities.NewTeam` | internal/entities/team.go:13-17 | the new team has 250 members, every one the zero user (the slice is made with length 250, not capacity) |
| `Entities.StatusValues` | internal/entities/pull_request.go:5-8 | `Open` is "OPEN", `Merged` is "MERGED", and they differ |
| `Entities.PullRequest.SetCreatedAtNow` | internal/entities/pull_request.go:22-24 | `createdAt` becomes the supplied time; id, name, status, merge time, author and reviewers are unchanged |
| `Entities.PullRequest.SetMergedAtNow` | internal/entities/pull_request.go:26-28 | `mergedAt` becomes the supplied time; the status and every other field are unchanged, so stamping does not make the request merged |
| `ReviewerSelection.IndexSubset` | internal/entities/util.go:8 | a tried set of roster indices has at most `len(col)` elements, equals all indices when it has `len(col)`, and otherwise misses some index (so the loop can always draw an untried one) |
| `ReviewerSelection.IsExcepted` | internal/entities/util.go:12-18 | the scan of the exclusion list sets the flag iff the member's id is in the list |
| `ReviewerSelection.ReviewerRandGen.constructor` | internal/entities/util.go:5-6 | a new generator keeps the roster and exclusions and has tried nothing |
| `ReviewerSelection.ReviewerRandGen.Next` | internal/entities/util.go:7-27 | success iff some untried index holds an active, non-excluded member; then the index is in range, eligible, was untried, and differs from every earlier result. Every other index tried in this call is ineligible, and `tried` only grows. Failure is exactly `(-1, ErrReviewerAssign)` with every index tried and every eligible index already returned |
| `ReviewerSelection.DrainCandidates` | internal/entities/util.go:5-27 | calling one generator until it fails yields pairwise-distinct indices that are exactly the eligible indices of the roster |
| `PullRequestDto.NewPullRequestDTO` | internal/entities/dto/pull_request_dto.go:19-23 | the new view has an empty reviewer list, no timestamps and zero scalars |
| `PullRequestDto.PullRequestToPullRequestDTOShort` | internal/entities/dto/pull_request_dto.go:57-64 | the short view copies id, name, status and the author's id |
| `PullRequestDto.MakePullRequestDTOShort` | internal/entities/dto/pull_request_dto.go:66-73 | the short view of a full view copies id, name, status and author id |
| `PullRequestDto.PullRequestToPullRequestDTO` | internal/entities/dto/pull_request_dto.go:25-48 | copies id, name, status and author id. Each timestamp is present iff present in the entity, with the same value. The reviewer list has one entry per map key, and each entry is the id of that key's reviewer value. Shortening the result equals shortening the entity |
| `PullRequestDto.ListsReviewersSize` | internal/entities/dto/pull_request_dto.go:44-46 | a reviewer list built from the map has exactly as many entries as the map has keys |
| `PullRequestDto.ListsReviewersMembers` | internal/entities/dto/pull_request_dto.go:44-46 | an id appears in a reviewer list built from the map iff some reviewer value carries it |
| `PullRequestDto.ReviewersFromIDsShape` | internal/entities/dto/pull_request_dto.go:95-99 | the reviewer map's keys are exactly the listed ids, key `k` maps to a user with id `k`, no name and inactive; the map is no larger than the list, and equally large iff the list has no repeated id |
| `PullRequestDto.PullRequestDTOToPullRequest` | internal/entities/dto/pull_request_dto.go:75-102 | scalars and both timestamps are copied, the author carries only the author id, and the reviewers are the map built from the id list |
| `PullRequestDto.DtoRoundTrip` | internal/entities/dto/pull_request_dto.go:25-102 | view to entity to view keeps id, name, status, author id, both timestamps and the set of reviewer ids. Repeated ids come back once, and list order is not kept |
| `PullRequestDto.EntityRoundTrip` | internal/entities/dto/pull_request_dto.go:25-102 | entity to view to entity keeps id, name, status, author id, both timestamps and the reviewer keys, when every reviewer value carries its own key |
| `TeamDto.NewTeamDTO` | internal/entities/dto/team_dto.go:18-22 | the new team view has no name and zero members |
| `TeamDto.UserToTeamMember` | internal/entities/dto/team_dto.go:24-30 | the member view keeps the user's id, name and active flag |
| `TeamDto.TeamToTeamDTO` | internal/entities/dto/team_dto.go:32-40 | same name, same number of members, member `i` is the view of team member `i` |
| `TeamDto.NewTeamView` | internal/entities/team.go:13-17 | the view of a freshly made team has 250 members, each with id 0, an empty name and inactive |
| `TeamModels.GetSqlViewBool` | internal/repo/postgres/util.go:42-47 | the result is "TRUE" or "FALSE", and "TRUE" iff the flag is set |
| `TeamModels.JoinLayout` | internal/repo/postgres/team_models.go:189-196 | joined rows have `2n-1` fragments: row `k` at position `2k` and the `,\n` separator at every odd position, so there are `n-1` separators and no trailing one |
| `TeamModels.JoinRowsIn` | internal/repo/postgres/team_models.go:189-196 | reading the rows back from the joined fragments gives exactly the rows joined, in order |
| `TeamModels.AddMembersList` | internal/repo/postgres/team_models.go:180-196 | nothing is issued iff the team (not the list) has no members. Otherwise the statement is the insert prefix followed by the list's rows (with the team id, the flag rendered "TRUE"/"FALSE") joined by ",\n". An empty list with a non-empty team gives the bare prefix |
| `TeamModels.PartitionCovers` | internal/repo/postgres/team_models.go:86-100 | the update and add lists together are a permutation of the incoming members, so their lengths sum to the team's size |
| `TeamModels.PartitionSorts` | internal/repo/postgres/team_models.go:89-99 | every member in the update list shares an id with a stored member; no member in the add list does |
| `TeamModels.PartitionClassifies` | internal/repo/postgres/team_models.go:89-99 | an incoming member is in the update list iff a stored member has its id, and in the add list iff none does |
| `TeamModels.PartitionAppend` | internal/repo/postgres/team_models.go:86-100 | partitioning a concatenation partitions each part and concatenates, so both lists keep the incoming order |
| `TeamModels.UpdateTeam` | internal/repo/postgres/team_models.go:73-113 | a failed read of the stored members gives `ErrQueryExec` and no writes. Otherwise the lists are the partition of the incoming members (update entries carry the incoming values), followed by the member insert of the add list and one update per update-list member |
| `TeamModels.CreateTeamRecord` | internal/repo/postgres/team_models.go:149-173 | inserts the team by name, then inserts every member under the id the database assigned (no member insert for an empty team) |
| `TeamModels.CreateTeamAsWritten` | internal/repo/postgres/team_models.go:49-71 | as written: a failed lookup returns its error. An existing team yields only an empty update plus `ErrModelAlreadyExists`, even when the update succeeds. A new team inserts a nameless team and no members. No write ever carries an incoming member |
| `TeamModels.CreateTeam` | internal/repo/postgres/team_models.go:49-71 | corrected: an existing team gets the incoming members partitioned against the stored ones and written under the stored id, and the call still reports `ErrModelAlreadyExists`. A new team is inserted under its own name (and nothing else when it has no members), and the rows read back from its member insert are exactly its members under the new id |
| `TeamModels.CreateTeamCounterexample` | internal/repo/postgres/team_models.go:52 | for a new team "core" with one member, as written issues only `InsertTeam("")`; corrected issues the named team and a row for the member |

## Findings

| source | as written | input that shows it | evidently intended | confidence | as-written member | corrected member |
|---|---|---|---|---|---|---|
| internal/repo/postgres/team_models.go:52 | `team, err := p.teamsRepo.isTeamExists(ctx, team.Name)` assigns to the parameter `team`: Go's short declaration reuses a variable declared in the function's parameter list. From then on `team` is the lookup result. That result has only an id and a name when the team is found, and is the zero `Team{}` when it is not | a new team "core" with member (7, "alice", active): the only statement is an insert of a team with an empty name, and no member row. An existing team: the update partitions an empty member list, so no member is inserted or updated | the incoming team is kept: a new team is inserted under its name with all its members; an existing team has its incoming members upserted under its stored id | high; not executed | `TeamModels.CreateTeamAsWritten` | `TeamModels.CreateTeam` |

## Left out

- HTTP handlers, request binding and validation, JSON rendering and context timeouts (`internal/controller/chttp/*`) are transport plumbing. The review-list and reassign handlers are empty stubs there.
- Creation-time reviewer assignment, reviewer reassignment, merge transitions, and the errors `ErrStatusForReassign`/`ErrReviewerIsWrong`: no code implements them (the pull-request interactor is an empty shell). Only the error values are declared.
- SQL execution and connection handling: `pull_request_models.go`, `postgres.go` (including the `sync.Once` close), and the `Exec`/`Query` calls of `team_models.go`. Stored members and the team lookup are inputs; executed statements are returned as values.
- `GetTeam`, `isTeamExists` and `getTeamMembers` read the database. Their outcomes enter as the `Lookup` and `Result` parameters.
- `internal/repo/postgres/user_models.go` is a second, conflicting declaration of the team repository with different, I/O-bound behaviour.
- The text of each member row (`fmt.Sprintf` with `string(user.ID)`, a rune conversion, and unescaped names). A row is kept as its four values.
- `fmt.Println` of the statement, logging, and the text of wrapped error messages. Errors are modelled by the sentinel they wrap.
- Slice capacities (`make(..., 0, 5)`, `make(..., 0, 250)`, `make(..., 0, 100)`) do not affect behaviour.
- Configuration, the `.env` file, log-file creation and application wiring (`internal/config/cfg/*`, `internal/app/app.go`).
- The service layer (`internal/services/*`): thin error-wrapping wrappers and interface declarations.
- ReviewerSelection.ReviewerRandGen.Next: the uniformity of `rand.Intn` is not modelled. Any untried index may be drawn, and repeated draws of tried indices are not represented.
- TeamModels.UpdateTeam: does not model a failure of the member insert or of the member updates. Each is assumed to succeed.
- TeamModels.CreateTeamRecord: does not model a failure of the team insert, or the branch where the insert returns no row and the team keeps its incoming id. The id the database assigns is a parameter.
- Entities.PullRequest.SetCreatedAtNow and Entities.PullRequest.SetMergedAtNow: `time.Now` is the parameter `now`.
