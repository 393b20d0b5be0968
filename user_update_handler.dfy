/**
 * User update: the profile fields and the role of an existing user are
 * replaced and the user's skill links are brought in line with the request.
 */
module UserUpdateHandler {
  import opened Wrappers
  import opened Text
  import opened Linq
  import opened Responses
  import opened JoinTable
  import opened UsersDomain
  import opened UsersMessages

  datatype UserUpdateRequest = UserUpdateRequest(
    id: int,
    name: string,
    surname: string,
    isActive: bool,
    roleId: int,
    skillIds: seq<int>)

  const UserUpdated: string := "User updated successfully"

  /**
   * Why the request is refused, checked in this order: the user does not
   * exist, the role does not exist, some skills do not exist; none when it
   * is accepted.
   */
  function Refusal(users: map<int, User>, roles: map<int, Role>, skills: map<int, Skill>,
                   request: UserUpdateRequest): (r: Option<string>)
    ensures r.None? <==> request.id in users && request.roleId in roles && Elements(request.skillIds) <= skills.Keys
    ensures request.id !in users ==> r == Some(UserNotFoundMessage(request.id))
    ensures request.id in users && request.roleId !in roles ==> r == Some(RoleNotFoundMessage(request.roleId))
    ensures request.id in users && request.roleId in roles && r.Some? ==>
              var missing := Except(request.skillIds, skills.Keys);
              && r == Some(SkillsNotFoundMessage(missing))
              && missing != []
              && (forall id :: id in missing <==> id in request.skillIds && id !in skills)
  {
    if request.id !in users then Some(UserNotFoundMessage(request.id))
    else if request.roleId !in roles then Some(RoleNotFoundMessage(request.roleId))
    else
      var missing := Except(request.skillIds, skills.Keys);
      ExceptEmpty(request.skillIds, skills.Keys);
      if missing != [] then Some(SkillsNotFoundMessage(missing)) else None
  }

  /** The user with the requested name, surname, activity and role; the rest is kept. */
  function Updated(user: User, request: UserUpdateRequest): (r: User)
    ensures r.name == request.name && r.surname == request.surname
    ensures r.isActive == request.isActive && r.roleId == request.roleId
    ensures r.(name := user.name, surname := user.surname, isActive := user.isActive, roleId := user.roleId) == user
  {
    user.(name := request.name, surname := request.surname, isActive := request.isActive, roleId := request.roleId)
  }

  /**
   * Saves the updated user, adds a link for each requested skill the user
   * lacks, then deletes the links to skills no longer requested.
   */
  method Revise(db: UsersDb, request: UserUpdateRequest)
    requires db.Valid()
    requires request.id in db.users && request.roleId in db.roles
    requires Elements(request.skillIds) <= db.skills.Keys
    modifies db
    ensures db.Valid()
    ensures db.roles == old(db.roles) && db.skills == old(db.skills)
    ensures db.users == old(db.users)[request.id := Updated(old(db.users)[request.id], request)]
    ensures db.userSkills == Reconcile(old(db.userSkills), request.id, request.skillIds, old(db.nextId))
    ensures Targets(db.userSkills, request.id) == Elements(request.skillIds)
    ensures forall o :: o != request.id ==> Targets(db.userSkills, o) == Targets(old(db.userSkills), o)
    ensures db.nextId == old(db.nextId) + |Except(request.skillIds, Targets(old(db.userSkills), request.id))|
  {
    var links, start := db.userSkills, db.nextId;
    db.UpdateUser(Updated(db.users[request.id], request));
    var added := Except(request.skillIds, Targets(links, request.id));
    db.AddUserSkills(request.id, added);
    WithLinksShape(links, request.id, added, start);
    db.RemoveUserSkills(StaleRows(links, request.id, request.skillIds));
    ReconcileTargets(links, request.id, request.skillIds, start);
  }

  /**
   * A refused request changes nothing. An accepted one updates the user and
   * leaves the user linked to exactly the requested skills.
   */
  method Handle(db: UsersDb, request: UserUpdateRequest) returns (response: Response)
    requires db.Valid()
    modifies db
    ensures db.Valid()
    ensures db.roles == old(db.roles) && db.skills == old(db.skills)
    ensures Refusal(old(db.users), old(db.roles), old(db.skills), request).Some? ==>
              && response == Response(false, Refusal(old(db.users), old(db.roles), old(db.skills), request).value)
              && db.users == old(db.users) && db.userSkills == old(db.userSkills) && db.nextId == old(db.nextId)
    ensures Refusal(old(db.users), old(db.roles), old(db.skills), request).None? ==>
              && response == Response(true, UserUpdated)
              && db.users == old(db.users)[request.id := Updated(old(db.users)[request.id], request)]
              && db.userSkills == Reconcile(old(db.userSkills), request.id, request.skillIds, old(db.nextId))
              && Targets(db.userSkills, request.id) == Elements(request.skillIds)
              && forall o :: o != request.id ==> Targets(db.userSkills, o) == Targets(old(db.userSkills), o)
  {
    var refusal := Refusal(db.users, db.roles, db.skills, request);
    if refusal.Some? {
      response := Response(false, refusal.value);
    } else {
      Revise(db, request);
      response := Response(true, UserUpdated);
    }
  }
}
