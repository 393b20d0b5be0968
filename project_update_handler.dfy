/**
 * Project update: the stored project, loaded with its `ProjectTag` rows,
 * loses those rows, takes the trimmed request fields and gets one new row
 * per requested tag id; the save fails when an id names no stored tag.
 */
module ProjectUpdateHandler {
  import Wrappers
  import opened Text
  import opened Linq
  import opened Responses
  import opened JoinTable
  import opened ProjectEntity
  import opened ProjectsDomain
  import opened ProjectsMessages

  datatype ProjectUpdateRequest = ProjectUpdateRequest(
    id: int,
    name: string,
    description: Wrappers.Option<string>,
    url: Wrappers.Option<string>,
    version: Wrappers.Option<real>,
    tagIds: seq<int>)

  const ProjectUpdated: string := "Project updated successfully."

  /** The project as the request leaves it: name, description and url trimmed, version copied. */
  function UpdatedRow(request: ProjectUpdateRequest): ProjectRow {
    ProjectRow(request.id, Trim(request.name), TrimNullable(request.description), TrimNullable(request.url),
               request.version)
  }

  /** The stored project as an entity, as `SingleOrDefaultAsync` returns it. */
  method Load(db: ProjectsDb, id: int) returns (entity: Project)
    requires id in db.projects && db.projects[id].id == id
    ensures fresh(entity)
    ensures RowOf(entity) == db.projects[id]
  {
    var stored := db.projects[id];
    entity := new Project(stored.id, stored.name, stored.description, stored.url, stored.version);
  }

  /** The handler's assignments to the loaded entity: trimmed fields, version, and `TagIds` from the request. */
  method Edit(entity: Project, request: ProjectUpdateRequest)
    requires entity.id == request.id
    modifies entity
    ensures RowOf(entity) == UpdatedRow(request)
    ensures entity.TagIds() == request.tagIds
  {
    entity.name := Trim(request.name);
    entity.description := TrimNullable(request.description);
    entity.url := TrimNullable(request.url);
    entity.version := request.version;
    entity.SetTagIds(request.tagIds);
  }

  /**
   * Updates an accepted project: its rows are removed, the entity takes the
   * request's fields and `TagIds`, its row is replaced, then one row per tag id.
   */
  method Revise(db: ProjectsDb, request: ProjectUpdateRequest)
    requires db.Valid()
    requires ProjectsNamed(db.projects, request.name) <= {request.id} && request.id in db.projects
    requires Elements(request.tagIds) <= db.tags.Keys
    modifies db
    ensures db.Valid()
    ensures db.tags == old(db.tags) && db.works == old(db.works)
    ensures db.projects == old(db.projects)[request.id := UpdatedRow(request)]
    ensures ProjectsNamed(db.projects, request.name) == {request.id}
    ensures db.projectTags == WithLinks(WithoutOwner(old(db.projectTags), request.id), request.id, request.tagIds,
                                        old(db.nextId))
    ensures Targets(db.projectTags, request.id) == Elements(request.tagIds)
    ensures forall o :: o != request.id ==> Targets(db.projectTags, o) == Targets(old(db.projectTags), o)
    ensures db.nextId == old(db.nextId) + |request.tagIds|
  {
    TrimmedNameKey(request.name);
    var entity := Load(db, request.id);
    WithoutOwnerTargets(db.projectTags, request.id);
    db.RemoveProjectTags(RowsOf(db.projectTags, request.id));
    Edit(entity, request);
    var row, tagIds := RowOf(entity), entity.TagIds();
    db.UpdateProjectRow(row);
    WithLinksTargets(db.projectTags, request.id, tagIds, db.nextId);
    db.AddProjectTags(request.id, tagIds);
  }

  /**
   * Refuses a name another project has, then an unknown id, changing
   * nothing. Otherwise the save fails, changing nothing, when a tag id
   * names no stored tag (the `ProjectTags` to `Tags` foreign key); else the
   * project's old rows are replaced by new ones linking it to exactly the
   * requested tag ids, and no other project's tags change.
   */
  method Handle(db: ProjectsDb, request: ProjectUpdateRequest) returns (result: CommandResult)
    requires db.Valid()
    modifies db
    ensures db.Valid()
    ensures db.tags == old(db.tags) && db.works == old(db.works)
    ensures ProjectsNamed(old(db.projects), request.name) - {request.id} != {} ==>
              && result == Error(ProjectExists)
              && db.projects == old(db.projects) && db.projectTags == old(db.projectTags) && db.nextId == old(db.nextId)
    ensures ProjectsNamed(old(db.projects), request.name) <= {request.id} && request.id !in old(db.projects) ==>
              && result == Error(ProjectNotFound)
              && db.projects == old(db.projects) && db.projectTags == old(db.projectTags) && db.nextId == old(db.nextId)
    ensures ProjectsNamed(old(db.projects), request.name) <= {request.id} && request.id in old(db.projects)
            && !(Elements(request.tagIds) <= old(db.tags.Keys)) ==>
              && result == SaveFailed
              && db.projects == old(db.projects) && db.projectTags == old(db.projectTags) && db.nextId == old(db.nextId)
    ensures ProjectsNamed(old(db.projects), request.name) <= {request.id} && request.id in old(db.projects)
            && Elements(request.tagIds) <= old(db.tags.Keys) ==>
              && result == Success(ProjectUpdated, request.id)
              && db.projects == old(db.projects)[request.id := UpdatedRow(request)]
              && ProjectsNamed(db.projects, request.name) == {request.id}
              && db.projectTags == WithLinks(WithoutOwner(old(db.projectTags), request.id), request.id, request.tagIds,
                                             old(db.nextId))
              && Targets(db.projectTags, request.id) == Elements(request.tagIds)
              && (forall o :: o != request.id ==> Targets(db.projectTags, o) == Targets(old(db.projectTags), o))
              && db.nextId == old(db.nextId) + |request.tagIds|
  {
    if ProjectsNamed(db.projects, request.name) - {request.id} != {} {
      result := Error(ProjectExists);
    } else if request.id !in db.projects {
      result := Error(ProjectNotFound);
    } else if !(Elements(request.tagIds) <= db.tags.Keys) {
      result := SaveFailed;
    } else {
      Revise(db, request);
      result := Success(ProjectUpdated, request.id);
    }
  }
}
