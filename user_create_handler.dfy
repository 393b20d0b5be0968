/**
 * User registration: a new active user with an untaken name, an existing
 * role and existing skills, linked to each requested skill.
 */
module UserCreateHandler {
  import opened Wrappers
  import opened Text
  import opened Linq
  import opened Responses
  import opened DbOperations
  import opened JoinTable
  import opened UsersDomain
  import opened UsersMessages

  datatype UserCreateRequest = UserCreateRequest(
    userName: string,
    password: string,
    name: string,
    surname: string,
    roleId: int,
    skillIds: seq<int>)

  const UserCreated: string := "User created successfully"

  function UserNameTakenMessage(userName: string): string {
    "Username '" + userName + "' is already taken"
  }

  /**
   * Why the request is refused, checked in this order: the user name is
   * taken, the role does not exist, some skills do not exist (each missing
   * id listed once, in request order); none when it is accepted.
   */
  function Refusal(users: map<int, User>, roles: map<int, Role>, skills: map<int, Skill>,
                   request: UserCreateRequest): (r: Option<string>)
    ensures r.None? <==> !UserNameTaken(users, request.userName) && request.roleId in roles
                         && Elements(request.skillIds) <= skills.Keys
    ensures UserNameTaken(users, request.userName) ==> r == Some(UserNameTakenMessage(request.userName))
    ensures !UserNameTaken(users, request.userName) && request.roleId !in roles ==>
              r == Some(RoleNotFoundMessage(request.roleId))
    ensures !UserNameTaken(users, request.userName) && request.roleId in roles && r.Some? ==>
              var missing := Except(request.skillIds, skills.Keys);
              && r == Some(SkillsNotFoundMessage(missing))
              && missing != []
              && (forall id :: id in missing <==> id in request.skillIds && id !in skills)
  {
    if UserNameTaken(users, request.userName) then Some(UserNameTakenMessage(request.userName))
    else if request.roleId !in roles then Some(RoleNotFoundMessage(request.roleId))
    else
      var missing := Except(request.skillIds, skills.Keys);
      ExceptEmpty(request.skillIds, skills.Keys);
      if missing != [] then Some(SkillsNotFoundMessage(missing)) else None
  }

  /** The stored user: active, registered at `now`, holding no refresh token. */
  function NewUser(id: int, request: UserCreateRequest, now: int): (user: User)
    ensures user.id == id && user.isActive && user.registrationDate == now
    ensures user.userName == request.userName && user.roleId == request.roleId
    ensures user.refreshToken.None? && user.refreshTokenExpiration.None?
  {
    User(id, request.userName, request.password, true, request.name, request.surname, now, request.roleId, None, None)
  }

  /**
   * Stores an accepted user under the next identity, then one `UserSkill`
   * row per requested skill id, repetitions included.
   */
  method Register(db: UsersDb, request: UserCreateRequest, now: int) returns (id: int)
    requires db.Valid()
    requires !UserNameTaken(db.users, request.userName) && request.roleId in db.roles
    requires Elements(request.skillIds) <= db.skills.Keys
    modifies db
    ensures db.Valid()
    ensures db.roles == old(db.roles) && db.skills == old(db.skills)
    ensures id == old(db.nextId) && id !in old(db.users)
    ensures db.users == old(db.users)[id := NewUser(id, request, now)]
    ensures db.userSkills == WithLinks(old(db.userSkills), id, request.skillIds, id + 1)
    ensures Targets(db.userSkills, id) == Elements(request.skillIds)
    ensures db.nextId == id + 1 + |request.skillIds|
  {
    var links := db.userSkills;
    id := db.nextId;
    db.AddUser(NewUser(id, request, now));
    WithLinksTargets(links, id, request.skillIds, id + 1);
    db.AddUserSkills(id, request.skillIds);
  }

  /**
   * A refused request changes nothing. An accepted one is registered and
   * answered with the new user's id.
   */
  method Handle(db: UsersDb, request: UserCreateRequest, now: int) returns (response: DataResponse)
    requires db.Valid()
    modifies db
    ensures db.Valid()
    ensures db.roles == old(db.roles) && db.skills == old(db.skills)
    ensures Refusal(old(db.users), old(db.roles), old(db.skills), request).Some? ==>
              && response == DataResponse(false, Refusal(old(db.users), old(db.roles), old(db.skills), request).value, 0)
              && db.users == old(db.users) && db.userSkills == old(db.userSkills) && db.nextId == old(db.nextId)
    ensures Refusal(old(db.users), old(db.roles), old(db.skills), request).None? ==>
              var id := old(db.nextId);
              && id !in old(db.users)
              && response == DataResponse(true, UserCreated, id)
              && db.users == old(db.users)[id := NewUser(id, request, now)]
              && db.userSkills == WithLinks(old(db.userSkills), id, request.skillIds, id + 1)
              && Targets(db.userSkills, id) == Elements(request.skillIds)
              && db.nextId == id + 1 + |request.skillIds|
  {
    var refusal := Refusal(db.users, db.roles, db.skills, request);
    if refusal.Some? {
      response := DataResponse(false, refusal.value, 0);
    } else {
      var id := Register(db, request, now);
      response := DataResponse(true, UserCreated, id);
    }
  }
}
