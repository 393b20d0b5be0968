/** Tag renaming: checked first against the other tags' names, then for the tag's existence. */
module TagUpdateHandler {
  import opened Text
  import opened Responses
  import opened ProjectsDomain
  import opened ProjectsMessages

  datatype TagUpdateRequest = TagUpdateRequest(id: int, name: string)

  const TagUpdated: string := "Tag updated successfully."

  /**
   * Refuses a name another tag has, then an unknown id, changing nothing;
   * otherwise the tag takes the trimmed name and alone answers to it.
   */
  method Handle(db: ProjectsDb, request: TagUpdateRequest) returns (result: CommandResult)
    requires db.Valid()
    modifies db
    ensures db.Valid()
    ensures db.projects == old(db.projects) && db.projectTags == old(db.projectTags) && db.works == old(db.works)
    ensures db.nextId == old(db.nextId)
    ensures TagsNamed(old(db.tags), request.name) - {request.id} != {} ==>
              result == Error(TagExists) && db.tags == old(db.tags)
    ensures TagsNamed(old(db.tags), request.name) <= {request.id} && request.id !in old(db.tags) ==>
              result == Error(TagNotFound) && db.tags == old(db.tags)
    ensures TagsNamed(old(db.tags), request.name) <= {request.id} && request.id in old(db.tags) ==>
              && result == Success(TagUpdated, request.id)
              && db.tags == old(db.tags)[request.id := Tag(request.id, Trim(request.name))]
              && TagsNamed(db.tags, request.name) == {request.id}
  {
    if TagsNamed(db.tags, request.name) - {request.id} != {} {
      result := Error(TagExists);
    } else if request.id !in db.tags {
      result := Error(TagNotFound);
    } else {
      TrimmedNameKey(request.name);
      db.UpdateTag(Tag(request.id, Trim(request.name)));
      result := Success(TagUpdated, request.id);
    }
  }
}
