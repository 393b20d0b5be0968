/** Role renaming: an existing role takes a name no other role has, up to case. */
module RoleUpdateHandler {
  import opened Text
  import opened Responses
  import opened UsersDomain
  import opened UsersMessages

  const RoleUpdated: string := "Role updated successfully"

  function AnotherRoleExistsMessage(name: string): string {
    "Another role with name '" + name + "' already exists"
  }

  /** A role may be renamed to its own name in another letter case: no other role has that name. */
  lemma RenameCaseOnly(roles: map<int, Role>, id: int, name: string)
    requires UniqueRoleNames(roles) && id in roles
    requires ToLower(name) == ToLower(roles[id].name)
    ensures RolesNamed(roles, name) == {id}
  {
    assert id in RolesNamed(roles, name);
    forall x | x in RolesNamed(roles, name)
      ensures x == id
    {
      assert ToLower(roles[x].name) == ToLower(roles[id].name);
    }
  }

  /**
   * Refuses an unknown id, then a name another role has up to case, changing
   * nothing; otherwise renames the role, which then alone answers to the name.
   */
  method Handle(db: UsersDb, id: int, name: string) returns (response: Response)
    requires db.Valid()
    modifies db
    ensures db.Valid()
    ensures db.users == old(db.users) && db.skills == old(db.skills) && db.userSkills == old(db.userSkills) && db.nextId == old(db.nextId)
    ensures id !in old(db.roles) ==> response == Response(false, RoleNotFoundMessage(id)) && db.roles == old(db.roles)
    ensures id in old(db.roles) && RolesNamed(old(db.roles), name) - {id} != {} ==>
              response == Response(false, AnotherRoleExistsMessage(name)) && db.roles == old(db.roles)
    ensures id in old(db.roles) && RolesNamed(old(db.roles), name) <= {id} ==>
              && response == Response(true, RoleUpdated)
              && db.roles == old(db.roles)[id := Role(id, name)]
              && RolesNamed(db.roles, name) == {id}
  {
    if id !in db.roles {
      response := Response(false, RoleNotFoundMessage(id));
    } else if RolesNamed(db.roles, name) - {id} != {} {
      response := Response(false, AnotherRoleExistsMessage(name));
    } else {
      db.UpdateRole(db.roles[id].(name := name));
      response := Response(true, RoleUpdated);
    }
  }
}
