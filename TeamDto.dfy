/** The transfer view of a team: its name and its members in order. */
module TeamDto {
  import opened Entities

  datatype TeamMember = TeamMember(id: UserID, name: string, isActive: bool)

  datatype TeamDTO = TeamDTO(name: string, members: seq<TeamMember>)

  /** The view a caller starts from: no name and no members (the capacity of 250 is not modelled). */
  function NewTeamDTO(): (d: TeamDTO)
    ensures d.name == "" && d.members == []
  {
    TeamDTO("", [])
  }

  /** The member view of a user keeps its id, name and active flag. */
  function UserToTeamMember(user: User): (m: TeamMember)
    ensures m.id == user.id && m.name == user.name && m.isActive == user.isActive
  {
    TeamMember(user.id, user.name, user.isActive)
  }

  /** The team view: the same name and one member view per member, in the team's order. */
  method TeamToTeamDTO(team: Team) returns (dto: TeamDTO)
    ensures dto.name == team.name
    ensures |dto.members| == |team.members|
    ensures forall i :: 0 <= i < |team.members| ==> dto.members[i] == UserToTeamMember(team.members[i])
  {
    dto := NewTeamDTO();
    dto := dto.(name := team.name);
    for i := 0 to |team.members|
      invariant dto.name == team.name
      invariant |dto.members| == i
      invariant forall j :: 0 <= j < i ==> dto.members[j] == UserToTeamMember(team.members[j])
    {
      dto := dto.(members := dto.members + [UserToTeamMember(team.members[i])]);
    }
  }

  /**
   * The view of a freshly made team holds 250 zero members, because the
   * team's member slice is made with length 250 rather than capacity 250.
   */
  method NewTeamView() returns (dto: TeamDTO)
    ensures dto.name == ""
    ensures |dto.members| == 250
    ensures forall i :: 0 <= i < |dto.members| ==> dto.members[i] == TeamMember(0, "", false)
  {
    dto := TeamToTeamDTO(NewTeam());
  }
}
