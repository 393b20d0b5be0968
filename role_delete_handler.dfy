/** Role deletion, refused while some user has the role. */
module RoleDeleteHandler {
  import opened Responses
  import opened UsersDomain
  import opened UsersMessages

  const RoleDeleted: string := "Role deleted successfully"
  const RoleInUseMessage: string := "Cannot delete role with associated users. Reassign the users to a different role first."

  /** Some user has the role (`Users.Any(u => u.RoleId == id)`). */
  predicate RoleInUse(users: map<int, User>, id: int) {
    exists u :: u in users && users[u].roleId == id
  }

  /**
   * Refuses an unknown id, then a role in use, changing nothing; otherwise
   * deletes the role and nothing else.
   */
  method Handle(db: UsersDb, id: int) returns (response: Response)
    requires db.Valid()
    modifies db
    ensures db.Valid()
    ensures db.users == old(db.users) && db.skills == old(db.skills) && db.userSkills == old(db.userSkills) && db.nextId == old(db.nextId)
    ensures id !in old(db.roles) ==> response == Response(false, RoleNotFoundMessage(id)) && db.roles == old(db.roles)
    ensures id in old(db.roles) && RoleInUse(old(db.users), id) ==>
              response == Response(false, RoleInUseMessage) && db.roles == old(db.roles)
    ensures id in old(db.roles) && !RoleInUse(old(db.users), id) ==>
              response == Response(true, RoleDeleted) && db.roles == old(db.roles) - {id}
  {
    if id !in db.roles {
      response := Response(false, RoleNotFoundMessage(id));
    } else if RoleInUse(db.users, id) {
      response := Response(false, RoleInUseMessage);
    } else {
      db.RemoveRole(id);
      response := Response(true, RoleDeleted);
    }
  }
}
