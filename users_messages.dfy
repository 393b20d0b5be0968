/** The refusal messages several users-service handlers share. */
module UsersMessages {
  import opened Text

  function UserNotFoundMessage(id: int): string {
    "User with ID " + IntToString(id) + " not found"
  }

  function RoleNotFoundMessage(id: int): string {
    "Role with ID " + IntToString(id) + " not found"
  }

  function SkillNotFoundMessage(id: int): string {
    "Skill with ID " + IntToString(id) + " not found"
  }

  /** `string.Join(", ", missing)` after the prefix. */
  function SkillsNotFoundMessage(missing: seq<int>): string {
    "Skill IDs not found: " + JoinInts(missing)
  }
}
