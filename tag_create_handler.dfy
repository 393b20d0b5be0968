/** Tag creation: a tag named by the trimmed request name, refused when a tag has that name up to case. */
module TagCreateHandler {
  import opened Text
  import opened Responses
  import opened ProjectsDomain
  import opened ProjectsMessages

  datatype TagCreateRequest = TagCreateRequest(name: string)

  const TagCreated: string := "Tag created successfully."

  /**
   * Refuses a name a tag already has, changing nothing; otherwise stores the
   * trimmed name under the next identity, and that tag alone then answers
   * to the name.
   */
  method Handle(db: ProjectsDb, request: TagCreateRequest) returns (result: CommandResult)
    requires db.Valid()
    modifies db
    ensures db.Valid()
    ensures db.projects == old(db.projects) && db.projectTags == old(db.projectTags) && db.works == old(db.works)
    ensures TagsNamed(old(db.tags), request.name) != {} ==>
              result == Error(TagExists) && db.tags == old(db.tags) && db.nextId == old(db.nextId)
    ensures TagsNamed(old(db.tags), request.name) == {} ==>
              var id := old(db.nextId);
              && id !in old(db.tags)
              && result == Success(TagCreated, id)
              && db.tags == old(db.tags)[id := Tag(id, Trim(request.name))]
              && TagsNamed(db.tags, request.name) == {id}
              && db.nextId == id + 1
  {
    if TagsNamed(db.tags, request.name) != {} {
      result := Error(TagExists);
    } else {
      TrimmedNameKey(request.name);
      var tag := Tag(db.nextId, Trim(request.name));
      db.AddTag(tag);
      result := Success(TagCreated, tag.id);
    }
  }
}
