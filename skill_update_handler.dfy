/** Skill renaming: an existing skill takes a name no other skill has, up to case. */
module SkillUpdateHandler {
  import opened Text
  import opened Responses
  import opened UsersDomain
  import opened UsersMessages

  const SkillUpdated: string := "Skill updated successfully"

  function AnotherSkillExistsMessage(name: string): string {
    "Another skill with name '" + name + "' already exists"
  }

  /** A skill may be renamed to its own name in another letter case: no other skill has that name. */
  lemma RenameCaseOnly(skills: map<int, Skill>, id: int, name: string)
    requires UniqueSkillNames(skills) && id in skills
    requires ToLower(name) == ToLower(skills[id].name)
    ensures SkillsNamed(skills, name) == {id}
  {
    assert id in SkillsNamed(skills, name);
    forall x | x in SkillsNamed(skills, name)
      ensures x == id
    {
      assert ToLower(skills[x].name) == ToLower(skills[id].name);
    }
  }

  /**
   * Refuses an unknown id, then a name another skill has up to case, changing
   * nothing; otherwise renames the skill, which then alone answers to the name.
   */
  method Handle(db: UsersDb, id: int, name: string) returns (response: Response)
    requires db.Valid()
    modifies db
    ensures db.Valid()
    ensures db.users == old(db.users) && db.roles == old(db.roles) && db.userSkills == old(db.userSkills) && db.nextId == old(db.nextId)
    ensures id !in old(db.skills) ==> response == Response(false, SkillNotFoundMessage(id)) && db.skills == old(db.skills)
    ensures id in old(db.skills) && SkillsNamed(old(db.skills), name) - {id} != {} ==>
              response == Response(false, AnotherSkillExistsMessage(name)) && db.skills == old(db.skills)
    ensures id in old(db.skills) && SkillsNamed(old(db.skills), name) <= {id} ==>
              && response == Response(true, SkillUpdated)
              && db.skills == old(db.skills)[id := Skill(id, name)]
              && SkillsNamed(db.skills, name) == {id}
  {
    if id !in db.skills {
      response := Response(false, SkillNotFoundMessage(id));
    } else if SkillsNamed(db.skills, name) - {id} != {} {
      response := Response(false, AnotherSkillExistsMessage(name));
    } else {
      db.UpdateSkill(db.skills[id].(name := name));
      response := Response(true, SkillUpdated);
    }
  }
}
