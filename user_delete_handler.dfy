/** User deletion: the user's skill links go first, then the user. */
module UserDeleteHandler {
  import opened JoinTable
  import opened Responses
  import opened UsersDomain
  import opened UsersMessages

  const UserDeleted: string := "User deleted successfully"

  /**
   * An unknown id changes nothing. Otherwise every `UserSkill` row of the
   * user is deleted, then the user; no other row changes.
   */
  method Handle(db: UsersDb, id: int) returns (response: Response)
    requires db.Valid()
    modifies db
    ensures db.Valid()
    ensures db.roles == old(db.roles) && db.skills == old(db.skills) && db.nextId == old(db.nextId)
    ensures id !in old(db.users) ==>
              && response == Response(false, UserNotFoundMessage(id))
              && db.users == old(db.users) && db.userSkills == old(db.userSkills)
    ensures id in old(db.users) ==>
              && response == Response(true, UserDeleted)
              && db.users == old(db.users) - {id}
              && db.userSkills == WithoutOwner(old(db.userSkills), id)
  {
    if id !in db.users {
      response := Response(false, UserNotFoundMessage(id));
    } else {
      db.RemoveUserSkills(RowsOf(db.userSkills, id));
      db.RemoveUser(id);
      response := Response(true, UserDeleted);
    }
  }
}
