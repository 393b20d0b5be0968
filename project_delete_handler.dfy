/**
 * Project deletion: the project's `ProjectTag` rows go first, then the
 * project; the save fails while a work still names the project.
 */
module ProjectDeleteHandler {
  import opened Responses
  import opened JoinTable
  import opened ProjectsDomain
  import opened ProjectsMessages

  datatype ProjectDeleteRequest = ProjectDeleteRequest(id: int)

  const ProjectDeleted: string := "Project deleted successfully."

  /**
   * Refuses an unknown id, changing nothing. Otherwise the save fails,
   * changing nothing, when a work names the project (the works are not
   * loaded, so the `Works` to `Projects` foreign key refuses the delete);
   * else deletes the project and every row linking it to a tag, and
   * nothing else.
   */
  method Handle(db: ProjectsDb, request: ProjectDeleteRequest) returns (result: CommandResult)
    requires db.Valid()
    modifies db
    ensures db.Valid()
    ensures db.tags == old(db.tags) && db.works == old(db.works) && db.nextId == old(db.nextId)
    ensures request.id !in old(db.projects) ==>
              result == Error(ProjectNotFound) && db.projects == old(db.projects) && db.projectTags == old(db.projectTags)
    ensures request.id in old(db.projects) && WorksOf(old(db.works), request.id) != {} ==>
              result == SaveFailed && db.projects == old(db.projects) && db.projectTags == old(db.projectTags)
    ensures request.id in old(db.projects) && WorksOf(old(db.works), request.id) == {} ==>
              && result == Success(ProjectDeleted, request.id)
              && db.projects == old(db.projects) - {request.id}
              && db.projectTags == WithoutOwner(old(db.projectTags), request.id)
              && Targets(db.projectTags, request.id) == {}
  {
    if request.id !in db.projects {
      result := Error(ProjectNotFound);
    } else if WorksOf(db.works, request.id) != {} {
      result := SaveFailed;
    } else {
      db.RemoveProjectTags(RowsOf(db.projectTags, request.id));
      db.RemoveProject(request.id);
      result := Success(ProjectDeleted, request.id);
    }
  }
}
