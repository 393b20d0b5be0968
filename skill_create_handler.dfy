/** Skill creation: a new skill whose name no skill has yet, up to case. */
module SkillCreateHandler {
  import opened Responses
  import opened UsersDomain

  const SkillCreated: string := "Skill created successfully"

  function SkillExistsMessage(name: string): string {
    "Skill with name '" + name + "' already exists"
  }

  /**
   * Refuses a name some skill already has up to case, changing nothing;
   * otherwise stores the skill under the next identity, which now alone
   * answers to that name.
   */
  method Handle(db: UsersDb, name: string) returns (response: DataResponse)
    requires db.Valid()
    modifies db
    ensures db.Valid()
    ensures db.users == old(db.users) && db.roles == old(db.roles) && db.userSkills == old(db.userSkills)
    ensures SkillsNamed(old(db.skills), name) != {} ==>
              && response == DataResponse(false, SkillExistsMessage(name), 0)
              && db.skills == old(db.skills) && db.nextId == old(db.nextId)
    ensures SkillsNamed(old(db.skills), name) == {} ==>
              var id := old(db.nextId);
              && id !in old(db.skills)
              && response == DataResponse(true, SkillCreated, id)
              && db.skills == old(db.skills)[id := Skill(id, name)]
              && SkillsNamed(db.skills, name) == {id}
              && db.nextId == id + 1
  {
    if SkillsNamed(db.skills, name) != {} {
      response := DataResponse(false, SkillExistsMessage(name), 0);
    } else {
      var id := db.nextId;
      db.AddSkill(Skill(id, name));
      response := DataResponse(true, SkillCreated, id);
    }
  }
}
