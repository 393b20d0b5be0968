/**
 * Project creation: a project entity built from the trimmed request, its
 * `TagIds` set from the request, inserted with one `ProjectTag` row per id;
 * the save fails when an id names no stored tag.
 */
module ProjectCreateHandler {
  import Wrappers
  import opened Text
  import opened Linq
  import opened Responses
  import opened JoinTable
  import opened ProjectEntity
  import opened ProjectsDomain
  import opened ProjectsMessages

  datatype ProjectCreateRequest = ProjectCreateRequest(
    name: string,
    description: Wrappers.Option<string>,
    url: Wrappers.Option<string>,
    version: Wrappers.Option<real>,
    tagIds: seq<int>)

  const ProjectCreated: string := "Project created successfully."

  /** The stored project: name, description and url trimmed, version copied. */
  function NewRow(id: int, request: ProjectCreateRequest): ProjectRow {
    ProjectRow(id, Trim(request.name), TrimNullable(request.description), TrimNullable(request.url), request.version)
  }

  /**
   * Builds the entity the handler saves (trimmed fields, `TagIds` set from
   * the request) and reads back its row and its tag ids.
   */
  method NewEntity(id: int, request: ProjectCreateRequest) returns (row: ProjectRow, tagIds: seq<int>)
    ensures row == NewRow(id, request)
    ensures tagIds == request.tagIds
  {
    var entity := new Project(id, Trim(request.name), TrimNullable(request.description), TrimNullable(request.url),
                              request.version);
    entity.SetTagIds(request.tagIds);
    row, tagIds := RowOf(entity), entity.TagIds();
  }

  /** Stores a project row under the next identity, then one `ProjectTag` row per tag id. */
  method Store(db: ProjectsDb, row: ProjectRow, tagIds: seq<int>)
    requires db.Valid()
    requires row.id == db.nextId && Trimmed(row.name) && ProjectsKeyed(db.projects, ToUpper(row.name)) == {}
    requires Elements(tagIds) <= db.tags.Keys
    modifies db
    ensures db.Valid()
    ensures db.tags == old(db.tags) && db.works == old(db.works)
    ensures db.projects == old(db.projects)[row.id := row]
    ensures ProjectsKeyed(db.projects, ToUpper(row.name)) == {row.id}
    ensures db.projectTags == WithLinks(old(db.projectTags), row.id, tagIds, row.id + 1)
    ensures Targets(db.projectTags, row.id) == Elements(tagIds)
    ensures db.nextId == row.id + 1 + |tagIds|
  {
    db.AddProjectRow(row);
    WithLinksTargets(db.projectTags, row.id, tagIds, db.nextId);
    db.AddProjectTags(row.id, tagIds);
  }

  /**
   * Inserts an accepted project whose tag ids are all stored: the entity
   * takes the next identity and its `TagIds` from the request, its row is
   * stored, then one row per tag id.
   */
  method Register(db: ProjectsDb, request: ProjectCreateRequest) returns (id: int)
    requires db.Valid()
    requires ProjectsNamed(db.projects, request.name) == {} && Elements(request.tagIds) <= db.tags.Keys
    modifies db
    ensures db.Valid()
    ensures db.tags == old(db.tags) && db.works == old(db.works)
    ensures id == old(db.nextId) && id !in old(db.projects)
    ensures db.projects == old(db.projects)[id := NewRow(id, request)]
    ensures ProjectsNamed(db.projects, request.name) == {id}
    ensures db.projectTags == WithLinks(old(db.projectTags), id, request.tagIds, id + 1)
    ensures Targets(db.projectTags, id) == Elements(request.tagIds)
    ensures db.nextId == id + 1 + |request.tagIds|
  {
    TrimmedNameKey(request.name);
    id := db.nextId;
    var row, tagIds := NewEntity(id, request);
    Store(db, row, tagIds);
  }

  /**
   * A refused request changes nothing. Otherwise the save fails, changing
   * nothing, when a tag id names no stored tag (the `ProjectTags` to
   * `Tags` foreign key); else the project is registered and answered with
   * the new id.
   */
  method Handle(db: ProjectsDb, request: ProjectCreateRequest) returns (result: CommandResult)
    requires db.Valid()
    modifies db
    ensures db.Valid()
    ensures db.tags == old(db.tags) && db.works == old(db.works)
    ensures ProjectsNamed(old(db.projects), request.name) != {} ==>
              && result == Error(ProjectExists)
              && db.projects == old(db.projects) && db.projectTags == old(db.projectTags) && db.nextId == old(db.nextId)
    ensures ProjectsNamed(old(db.projects), request.name) == {} && !(Elements(request.tagIds) <= old(db.tags.Keys)) ==>
              && result == SaveFailed
              && db.projects == old(db.projects) && db.projectTags == old(db.projectTags) && db.nextId == old(db.nextId)
    ensures ProjectsNamed(old(db.projects), request.name) == {} && Elements(request.tagIds) <= old(db.tags.Keys) ==>
              var id := old(db.nextId);
              && id !in old(db.projects)
              && result == Success(ProjectCreated, id)
              && db.projects == old(db.projects)[id := NewRow(id, request)]
              && ProjectsNamed(db.projects, request.name) == {id}
              && db.projectTags == WithLinks(old(db.projectTags), id, request.tagIds, id + 1)
              && Targets(db.projectTags, id) == Elements(request.tagIds)
              && db.nextId == id + 1 + |request.tagIds|
  {
    if ProjectsNamed(db.projects, request.name) != {} {
      result := Error(ProjectExists);
    } else if !(Elements(request.tagIds) <= db.tags.Keys) {
      result := SaveFailed;
    } else {
      var id := Register(db, request);
      result := Success(ProjectCreated, id);
    }
  }
}
