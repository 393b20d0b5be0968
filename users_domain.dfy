/**
 * The users service's entities and its database: users, roles, skills and
 * the user-skill join table, with the integrity the handlers maintain.
 * Times are whole seconds counted from `DateTime.MinValue`.
 */
module UsersDomain {
  import opened Wrappers
  import opened Text
  import opened Linq
  import opened DbOperations
  import opened JoinTable

  datatype User = User(
    id: int,
    userName: string,
    password: string,
    isActive: bool,
    name: string,
    surname: string,
    registrationDate: int,
    roleId: int,
    refreshToken: Option<string>,
    refreshTokenExpiration: Option<int>)

  datatype Role = Role(id: int, name: string)

  datatype Skill = Skill(id: int, name: string)

  /** `AppSettings`: the signing secret and the two token lifetimes. */
  datatype AppSettings = AppSettings(secret: string, tokenExpirationInMinutes: int, refreshTokenExpirationInDays: int)

  const SecondsPerMinute: int := 60
  const SecondsPerDay: int := 86400

  /** No two users share a user name (the create handler refuses a taken one). */
  ghost predicate UniqueUserNames(users: map<int, User>) {
    forall a, b {:trigger users[a].userName, users[b].userName} ::
      a in users && b in users && users[a].userName == users[b].userName ==> a == b
  }

  /**
   * `Users.FirstOrDefault(u => u.UserName == userName)`: the identity of the
   * user with that exact name, or none when nobody has it.
   */
  function UserNamed(users: map<int, User>, userName: string): (r: Option<int>)
    requires UniqueUserNames(users)
    ensures r.Some? ==> r.value in users && users[r.value].userName == userName
    ensures r.None? <==> forall id :: id in users ==> users[id].userName != userName
  {
    if id :| id in users && users[id].userName == userName then Some(id) else None
  }

  /** Some user already has this exact user name. */
  predicate UserNameTaken(users: map<int, User>, userName: string) {
    exists id :: id in users && users[id].userName == userName
  }

  /** Users are keyed by their ids, below `nextId`, with existing roles and distinct user names. */
  ghost predicate UsersValid(users: map<int, User>, roles: map<int, Role>, nextId: int) {
    && (forall id :: id in users ==> users[id].id == id && id < nextId && users[id].roleId in roles)
    && UniqueUserNames(users)
  }

  /** Replacing a user by a record with the same id, the same user name and an existing role keeps the users valid. */
  lemma ReplaceUserValid(users: map<int, User>, roles: map<int, Role>, nextId: int, user: User)
    requires UsersValid(users, roles, nextId)
    requires user.id in users && user.userName == users[user.id].userName && user.roleId in roles
    ensures UsersValid(users[user.id := user], roles, nextId)
    ensures users[user.id := user].Keys == users.Keys
  {
  }

  /** A user with the next identity, an existing role and an untaken name keeps the users valid. */
  lemma AddUserValid(users: map<int, User>, roles: map<int, Role>, nextId: int, user: User)
    requires UsersValid(users, roles, nextId)
    requires user.id == nextId && user.roleId in roles && !UserNameTaken(users, user.userName)
    ensures UsersValid(users[nextId := user], roles, nextId + 1)
  {
  }

  /** No two roles have the same name up to case. */
  ghost predicate UniqueRoleNames(roles: map<int, Role>) {
    forall a, b {:trigger ToLower(roles[a].name), ToLower(roles[b].name)} ::
      a in roles && b in roles && ToLower(roles[a].name) == ToLower(roles[b].name) ==> a == b
  }

  /** No two skills have the same name up to case. */
  ghost predicate UniqueSkillNames(skills: map<int, Skill>) {
    forall a, b {:trigger ToLower(skills[a].name), ToLower(skills[b].name)} ::
      a in skills && b in skills && ToLower(skills[a].name) == ToLower(skills[b].name) ==> a == b
  }

  /** Roles are keyed by their ids, below `nextId`, with names distinct up to case. */
  ghost predicate RolesValid(roles: map<int, Role>, nextId: int) {
    && (forall id :: id in roles ==> roles[id].id == id && id < nextId)
    && UniqueRoleNames(roles)
  }

  /** Skills are keyed by their ids, below `nextId`, with names distinct up to case. */
  ghost predicate SkillsValid(skills: map<int, Skill>, nextId: int) {
    && (forall id :: id in skills ==> skills[id].id == id && id < nextId)
    && UniqueSkillNames(skills)
  }

  /** The roles whose name equals `name` up to case (`r.Name.ToLower() == name.ToLower()`). */
  function RolesNamed(roles: map<int, Role>, name: string): (r: set<int>)
    ensures forall id :: id in r <==> id in roles && ToLower(roles[id].name) == ToLower(name)
  {
    set id | id in roles && ToLower(roles[id].name) == ToLower(name)
  }

  /** The skills whose name equals `name` up to case. */
  function SkillsNamed(skills: map<int, Skill>, name: string): (r: set<int>)
    ensures forall id :: id in r <==> id in skills && ToLower(skills[id].name) == ToLower(name)
  {
    set id | id in skills && ToLower(skills[id].name) == ToLower(name)
  }

  /** Storing a role whose name no other role has up to case keeps the names distinct, and the name is now its own. */
  lemma PutRoleValid(roles: map<int, Role>, nextId: int, role: Role)
    requires RolesValid(roles, nextId)
    requires role.id < nextId && RolesNamed(roles, role.name) <= {role.id}
    ensures RolesValid(roles[role.id := role], nextId)
    ensures RolesNamed(roles[role.id := role], role.name) == {role.id}
  {
    var r := roles[role.id := role];
    forall a, b | a in r && b in r && ToLower(r[a].name) == ToLower(r[b].name)
      ensures a == b
    {
      if a != role.id && b != role.id {
        assert roles[a].name == r[a].name && roles[b].name == r[b].name;
      }
    }
  }

  /** Storing a skill whose name no other skill has up to case keeps the names distinct, and the name is now its own. */
  lemma PutSkillValid(skills: map<int, Skill>, nextId: int, skill: Skill)
    requires SkillsValid(skills, nextId)
    requires skill.id < nextId && SkillsNamed(skills, skill.name) <= {skill.id}
    ensures SkillsValid(skills[skill.id := skill], nextId)
    ensures SkillsNamed(skills[skill.id := skill], skill.name) == {skill.id}
  {
    var r := skills[skill.id := skill];
    forall a, b | a in r && b in r && ToLower(r[a].name) == ToLower(r[b].name)
      ensures a == b
    {
      if a != skill.id && b != skill.id {
        assert skills[a].name == r[a].name && skills[b].name == r[b].name;
      }
    }
  }

  ghost predicate TablesValid(users: map<int, User>, roles: map<int, Role>, skills: map<int, Skill>,
                              userSkills: map<int, Link>, nextId: int) {
    && UsersValid(users, roles, nextId)
    && RolesValid(roles, nextId)
    && SkillsValid(skills, nextId)
    && LinksWithin(userSkills, users.Keys, skills.Keys, nextId)
  }

  /** The users service's tables. `UserSkill` rows link a user (owner) to a skill (target). */
  class UsersDb {
    var users: map<int, User>
    var roles: map<int, Role>
    var skills: map<int, Skill>
    var userSkills: map<int, Link>
    /** The next identity the database hands out. */
    var nextId: int

    /**
     * Every row is keyed by its id and below `nextId`; users have existing
     * roles and distinct names, roles and skills distinct names up to case,
     * and every `UserSkill` row links an existing user to an existing skill.
     */
    ghost predicate Valid()
      reads this
    {
      TablesValid(users, roles, skills, userSkills, nextId)
    }

    constructor ()
      ensures Valid()
      ensures users == map[] && roles == map[] && skills == map[] && userSkills == map[]
    {
      users, roles, skills, userSkills := map[], map[], map[], map[];
      nextId := 1;
    }

    /** Stores a user under the next identity. */
    method AddUser(user: User)
      requires Valid()
      requires user.id == nextId && user.roleId in roles && !UserNameTaken(users, user.userName)
      modifies this
      ensures Valid()
      ensures users == old(users)[user.id := user] && nextId == old(nextId) + 1
      ensures roles == old(roles) && skills == old(skills) && userSkills == old(userSkills)
      ensures Targets(userSkills, user.id) == {}
    {
      AddUserValid(users, roles, nextId, user);
      LinksOutside(userSkills, users.Keys, skills.Keys, nextId, user.id);
      users := Add(users, nextId, user);
      nextId := nextId + 1;
    }

    /** Replaces a stored user by a record with the same id and user name. */
    method UpdateUser(user: User)
      requires Valid()
      requires user.id in users && user.userName == users[user.id].userName && user.roleId in roles
      modifies this
      ensures Valid()
      ensures users == old(users)[user.id := user]
      ensures roles == old(roles) && skills == old(skills) && userSkills == old(userSkills) && nextId == old(nextId)
    {
      ReplaceUserValid(users, roles, nextId, user);
      users := Update(users, user.id, user);
    }

    /** Deletes a user who no longer has `UserSkill` rows. */
    method RemoveUser(id: int)
      requires Valid()
      requires id in users && RowsOf(userSkills, id) == {}
      modifies this
      ensures Valid()
      ensures users == old(users) - {id}
      ensures roles == old(roles) && skills == old(skills) && userSkills == old(userSkills) && nextId == old(nextId)
    {
      forall k | k in userSkills
        ensures userSkills[k].owner != id
      {
        assert k !in RowsOf(userSkills, id);
      }
      var (_, rest) := Delete(users, id);
      users := rest;
    }

    /** Stores a role, whose name no other role has up to case, under the next identity. */
    method AddRole(role: Role)
      requires Valid()
      requires role.id == nextId && RolesNamed(roles, role.name) == {}
      modifies this
      ensures Valid()
      ensures roles == old(roles)[role.id := role] && nextId == old(nextId) + 1
      ensures RolesNamed(roles, role.name) == {role.id}
      ensures users == old(users) && skills == old(skills) && userSkills == old(userSkills)
    {
      PutRoleValid(roles, nextId + 1, role);
      roles := Add(roles, nextId, role);
      nextId := nextId + 1;
    }

    /** Replaces a stored role by a record with the same id and a name no other role has up to case. */
    method UpdateRole(role: Role)
      requires Valid()
      requires role.id in roles && RolesNamed(roles, role.name) <= {role.id}
      modifies this
      ensures Valid()
      ensures roles == old(roles)[role.id := role]
      ensures RolesNamed(roles, role.name) == {role.id}
      ensures users == old(users) && skills == old(skills) && userSkills == old(userSkills) && nextId == old(nextId)
    {
      PutRoleValid(roles, nextId, role);
      roles := Update(roles, role.id, role);
    }

    /** Deletes a role no user has. */
    method RemoveRole(id: int)
      requires Valid()
      requires id in roles && forall u :: u in users ==> users[u].roleId != id
      modifies this
      ensures Valid()
      ensures roles == old(roles) - {id}
      ensures users == old(users) && skills == old(skills) && userSkills == old(userSkills) && nextId == old(nextId)
    {
      var (_, rest) := Delete(roles, id);
      roles := rest;
    }

    /** Stores a skill, whose name no other skill has up to case, under the next identity. */
    method AddSkill(skill: Skill)
      requires Valid()
      requires skill.id == nextId && SkillsNamed(skills, skill.name) == {}
      modifies this
      ensures Valid()
      ensures skills == old(skills)[skill.id := skill] && nextId == old(nextId) + 1
      ensures SkillsNamed(skills, skill.name) == {skill.id}
      ensures users == old(users) && roles == old(roles) && userSkills == old(userSkills)
    {
      PutSkillValid(skills, nextId + 1, skill);
      skills := Add(skills, nextId, skill);
      nextId := nextId + 1;
    }

    /** Replaces a stored skill by a record with the same id and a name no other skill has up to case. */
    method UpdateSkill(skill: Skill)
      requires Valid()
      requires skill.id in skills && SkillsNamed(skills, skill.name) <= {skill.id}
      modifies this
      ensures Valid()
      ensures skills == old(skills)[skill.id := skill]
      ensures SkillsNamed(skills, skill.name) == {skill.id}
      ensures users == old(users) && roles == old(roles) && userSkills == old(userSkills) && nextId == old(nextId)
    {
      PutSkillValid(skills, nextId, skill);
      skills := Update(skills, skill.id, skill);
    }

    /** Deletes a skill no `UserSkill` row links to. */
    method RemoveSkill(id: int)
      requires Valid()
      requires id in skills && forall k :: k in userSkills ==> userSkills[k].target != id
      modifies this
      ensures Valid()
      ensures skills == old(skills) - {id}
      ensures users == old(users) && roles == old(roles) && userSkills == old(userSkills) && nextId == old(nextId)
    {
      var (_, rest) := Delete(skills, id);
      skills := rest;
    }

    /** One `UserSkill` row per skill id, in order, under the next identities. */
    method AddUserSkills(userId: int, skillIds: seq<int>)
      requires Valid()
      requires userId in users && Elements(skillIds) <= skills.Keys
      modifies this
      ensures Valid()
      ensures users == old(users) && roles == old(roles) && skills == old(skills)
      ensures userSkills == WithLinks(old(userSkills), userId, skillIds, old(nextId))
      ensures nextId == old(nextId) + |skillIds|
    {
      var i := 0;
      while i < |skillIds|
        invariant 0 <= i <= |skillIds|
        invariant userSkills == WithLinks(old(userSkills), userId, skillIds[..i], old(nextId))
        invariant nextId == old(nextId) + i
        invariant users == old(users) && roles == old(roles) && skills == old(skills)
      {
        assert skillIds[..i + 1][..i] == skillIds[..i];
        WithLinksShape(old(userSkills), userId, skillIds[..i], old(nextId));
        userSkills := Add(userSkills, nextId, Link(userId, skillIds[i]));
        nextId := nextId + 1;
        i := i + 1;
      }
      assert skillIds[..i] == skillIds;
      WithLinksWithin(old(userSkills), userId, skillIds, old(nextId), users.Keys, skills.Keys);
    }

    /** Deletes the given `UserSkill` rows one by one. */
    method RemoveUserSkills(rows: set<int>)
      requires Valid()
      requires rows <= userSkills.Keys
      modifies this
      ensures Valid()
      ensures users == old(users) && roles == old(roles) && skills == old(skills) && nextId == old(nextId)
      ensures userSkills == old(userSkills) - rows
    {
      var pending := rows;
      while exists k :: k in pending
        invariant pending <= rows
        invariant userSkills == old(userSkills) - (rows - pending)
        invariant users == old(users) && roles == old(roles) && skills == old(skills) && nextId == old(nextId)
        decreases |pending|
      {
        var k :| k in pending;
        var (_, rest) := Delete(userSkills, k);
        userSkills := rest;
        pending := pending - {k};
      }
    }
  }
}
