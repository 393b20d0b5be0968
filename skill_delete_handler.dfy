/** Skill deletion, refused while some `UserSkill` row links to the skill. */
module SkillDeleteHandler {
  import opened JoinTable
  import opened Responses
  import opened UsersDomain
  import opened UsersMessages

  const SkillDeleted: string := "Skill deleted successfully"
  const SkillInUseMessage: string := "Cannot delete skill with associated users. Remove the skill from those users first."

  /** Some `UserSkill` row links to the skill (`UserSkills.Any(us => us.SkillId == id)`). */
  predicate SkillInUse(userSkills: map<int, Link>, id: int) {
    exists k :: k in userSkills && userSkills[k].target == id
  }

  /**
   * Refuses an unknown id, then a skill in use, changing nothing; otherwise
   * deletes the skill and nothing else.
   */
  method Handle(db: UsersDb, id: int) returns (response: Response)
    requires db.Valid()
    modifies db
    ensures db.Valid()
    ensures db.users == old(db.users) && db.roles == old(db.roles) && db.userSkills == old(db.userSkills) && db.nextId == old(db.nextId)
    ensures id !in old(db.skills) ==> response == Response(false, SkillNotFoundMessage(id)) && db.skills == old(db.skills)
    ensures id in old(db.skills) && SkillInUse(old(db.userSkills), id) ==>
              response == Response(false, SkillInUseMessage) && db.skills == old(db.skills)
    ensures id in old(db.skills) && !SkillInUse(old(db.userSkills), id) ==>
              response == Response(true, SkillDeleted) && db.skills == old(db.skills) - {id}
  {
    if id !in db.skills {
      response := Response(false, SkillNotFoundMessage(id));
    } else if SkillInUse(db.userSkills, id) {
      response := Response(false, SkillInUseMessage);
    } else {
      db.RemoveSkill(id);
      response := Response(true, SkillDeleted);
    }
  }
}
