/**
 * Work update: the date order, then the other works' names, then the
 * work's existence; the save fails when the project id names no stored project.
 */
module WorkUpdateHandler {
  import Wrappers
  import opened Text
  import opened Responses
  import opened ProjectsDomain
  import opened ProjectsMessages

  datatype WorkUpdateRequest = WorkUpdateRequest(
    id: int,
    name: string,
    description: Wrappers.Option<string>,
    startDate: int,
    dueDate: int,
    projectId: Wrappers.Option<int>)

  const WorkUpdated: string := "Work updated successfully."

  /** The work as the request leaves it: every field replaced, the name and description trimmed. */
  function Updated(request: WorkUpdateRequest): Work {
    Work(request.id, Trim(request.name), TrimNullable(request.description), request.startDate, request.dueDate,
         request.projectId)
  }

  /**
   * Refuses a due date before the start date, then a name another work
   * has, then an unknown id, changing nothing. Otherwise the save fails,
   * changing nothing, when the project id names no stored project (the
   * `Works` to `Projects` foreign key); else replaces the work, which alone
   * then answers to the name.
   */
  method Handle(db: ProjectsDb, request: WorkUpdateRequest) returns (result: CommandResult)
    requires db.Valid()
    modifies db
    ensures db.Valid()
    ensures db.tags == old(db.tags) && db.projects == old(db.projects) && db.projectTags == old(db.projectTags)
    ensures db.nextId == old(db.nextId)
    ensures request.dueDate < request.startDate ==> result == Error(DueBeforeStart) && db.works == old(db.works)
    ensures request.startDate <= request.dueDate && WorksNamed(old(db.works), request.name) - {request.id} != {} ==>
              result == Error(WorkExists) && db.works == old(db.works)
    ensures request.startDate <= request.dueDate && WorksNamed(old(db.works), request.name) <= {request.id}
            && request.id !in old(db.works) ==>
              result == Error(WorkNotFound) && db.works == old(db.works)
    ensures request.startDate <= request.dueDate && WorksNamed(old(db.works), request.name) <= {request.id}
            && request.id in old(db.works) && !ProjectKnown(old(db.projects), request.projectId) ==>
              result == SaveFailed && db.works == old(db.works)
    ensures request.startDate <= request.dueDate && WorksNamed(old(db.works), request.name) <= {request.id}
            && request.id in old(db.works) && ProjectKnown(old(db.projects), request.projectId) ==>
              && result == Success(WorkUpdated, request.id)
              && db.works == old(db.works)[request.id := Updated(request)]
              && WorksNamed(db.works, request.name) == {request.id}
  {
    if request.dueDate < request.startDate {
      result := Error(DueBeforeStart);
    } else if WorksNamed(db.works, request.name) - {request.id} != {} {
      result := Error(WorkExists);
    } else if request.id !in db.works {
      result := Error(WorkNotFound);
    } else if !ProjectKnown(db.projects, request.projectId) {
      result := SaveFailed;
    } else {
      TrimmedNameKey(request.name);
      db.UpdateWork(Updated(request));
      result := Success(WorkUpdated, request.id);
    }
  }
}
