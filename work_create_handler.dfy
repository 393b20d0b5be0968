/**
 * Work creation: dated in order, named by the trimmed request name no work
 * has up to case; the save fails when the project id names no stored project.
 */
module WorkCreateHandler {
  import Wrappers
  import opened Text
  import opened Responses
  import opened ProjectsDomain
  import opened ProjectsMessages

  datatype WorkCreateRequest = WorkCreateRequest(
    name: string,
    description: Wrappers.Option<string>,
    startDate: int,
    dueDate: int,
    projectId: Wrappers.Option<int>)

  const WorkCreated: string := "Work created successfully."

  /** The stored work: the name and description trimmed, the dates and project copied. */
  function NewWork(id: int, request: WorkCreateRequest): Work {
    Work(id, Trim(request.name), TrimNullable(request.description), request.startDate, request.dueDate,
         request.projectId)
  }

  /**
   * Refuses a due date before the start date, then a name a work already
   * has, changing nothing. Otherwise the save fails, changing nothing, when
   * the project id names no stored project (the `Works` to `Projects`
   * foreign key); else stores the work under the next identity, and it
   * alone then answers to the name.
   */
  method Handle(db: ProjectsDb, request: WorkCreateRequest) returns (result: CommandResult)
    requires db.Valid()
    modifies db
    ensures db.Valid()
    ensures db.tags == old(db.tags) && db.projects == old(db.projects) && db.projectTags == old(db.projectTags)
    ensures request.dueDate < request.startDate ==>
              result == Error(DueBeforeStart) && db.works == old(db.works) && db.nextId == old(db.nextId)
    ensures request.startDate <= request.dueDate && WorksNamed(old(db.works), request.name) != {} ==>
              result == Error(WorkExists) && db.works == old(db.works) && db.nextId == old(db.nextId)
    ensures request.startDate <= request.dueDate && WorksNamed(old(db.works), request.name) == {}
            && !ProjectKnown(old(db.projects), request.projectId) ==>
              result == SaveFailed && db.works == old(db.works) && db.nextId == old(db.nextId)
    ensures request.startDate <= request.dueDate && WorksNamed(old(db.works), request.name) == {}
            && ProjectKnown(old(db.projects), request.projectId) ==>
              var id := old(db.nextId);
              && id !in old(db.works)
              && result == Success(WorkCreated, id)
              && db.works == old(db.works)[id := NewWork(id, request)]
              && WorksNamed(db.works, request.name) == {id}
              && db.nextId == id + 1
  {
    if request.dueDate < request.startDate {
      result := Error(DueBeforeStart);
    } else if WorksNamed(db.works, request.name) != {} {
      result := Error(WorkExists);
    } else if !ProjectKnown(db.projects, request.projectId) {
      result := SaveFailed;
    } else {
      TrimmedNameKey(request.name);
      var work := NewWork(db.nextId, request);
      db.AddWork(work);
      result := Success(WorkCreated, work.id);
    }
  }
}
