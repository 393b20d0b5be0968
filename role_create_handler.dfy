/** Role creation: a new role whose name no role has yet, up to case. */
module RoleCreateHandler {
  import opened Responses
  import opened UsersDomain

  const RoleCreated: string := "Role created successfully"

  function RoleExistsMessage(name: string): string {
    "Role with name '" + name + "' already exists"
  }

  /**
   * Refuses a name some role already has up to case, changing nothing;
   * otherwise stores the role under the next identity, which now alone
   * answers to that name.
   */
  method Handle(db: UsersDb, name: string) returns (response: DataResponse)
    requires db.Valid()
    modifies db
    ensures db.Valid()
    ensures db.users == old(db.users) && db.skills == old(db.skills) && db.userSkills == old(db.userSkills)
    ensures RolesNamed(old(db.roles), name) != {} ==>
              && response == DataResponse(false, RoleExistsMessage(name), 0)
              && db.roles == old(db.roles) && db.nextId == old(db.nextId)
    ensures RolesNamed(old(db.roles), name) == {} ==>
              var id := old(db.nextId);
              && id !in old(db.roles)
              && response == DataResponse(true, RoleCreated, id)
              && db.roles == old(db.roles)[id := Role(id, name)]
              && RolesNamed(db.roles, name) == {id}
              && db.nextId == id + 1
  {
    if RolesNamed(db.roles, name) != {} {
      response := DataResponse(false, RoleExistsMessage(name), 0);
    } else {
      var id := db.nextId;
      db.AddRole(Role(id, name));
      response := DataResponse(true, RoleCreated, id);
    }
  }
}
