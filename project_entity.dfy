/**
 * The `Project` entity object of the projects service, with its `TagIds`
 * property: a view of the `ProjectTags` navigation collection that reads
 * the tag ids off it and, when assigned, replaces it.
 */
module ProjectEntity {
  import opened Wrappers

  /** An element of a project's `ProjectTags`; `ProjectId` keeps the C# default 0 until the row is saved. */
  datatype ProjectTag = ProjectTag(projectId: int, tagId: int)

  /** `ProjectTags.Select(pt => pt.TagId)`: one tag id per element, in order. */
  function TagIdsOf(projectTags: seq<ProjectTag>): (r: seq<int>)
    ensures |r| == |projectTags|
    ensures forall i :: 0 <= i < |r| ==> r[i] == projectTags[i].tagId
  {
    if projectTags == [] then [] else [projectTags[0].tagId] + TagIdsOf(projectTags[1..])
  }

  /** `value.Select(v => new ProjectTag { TagId = v })`: one new element per id, in order. */
  function NewProjectTags(value: seq<int>): (r: seq<ProjectTag>)
    ensures |r| == |value|
    ensures forall i :: 0 <= i < |r| ==> r[i] == ProjectTag(0, value[i])
  {
    if value == [] then [] else [ProjectTag(0, value[0])] + NewProjectTags(value[1..])
  }

  /** Reading the ids back from the collection built for them gives the same list. */
  lemma {:induction false} TagIdsRoundTrip(value: seq<int>)
    ensures TagIdsOf(NewProjectTags(value)) == value
  {
    if value != [] {
      TagIdsRoundTrip(value[1..]);
      assert NewProjectTags(value)[1..] == NewProjectTags(value[1..]);
    }
  }

  /** A project as the handlers build it; `Version` is a `double` they only copy. */
  class Project {
    var id: int
    var name: string
    var description: Option<string>
    var url: Option<string>
    var version: Option<real>
    var projectTags: seq<ProjectTag>

    constructor (id: int, name: string, description: Option<string>, url: Option<string>, version: Option<real>)
      ensures this.id == id && this.name == name && this.description == description
      ensures this.url == url && this.version == version && projectTags == []
    {
      this.id, this.name, this.description, this.url, this.version := id, name, description, url, version;
      projectTags := [];
    }

    /** The `TagIds` getter. */
    function TagIds(): (r: seq<int>)
      reads this
      ensures |r| == |projectTags|
    {
      TagIdsOf(projectTags)
    }

    /** The `TagIds` setter: `ProjectTags` becomes one new element per id; reading `TagIds` gives `value` back. */
    method SetTagIds(value: seq<int>)
      modifies this
      ensures projectTags == NewProjectTags(value)
      ensures TagIds() == value
      ensures id == old(id) && name == old(name) && description == old(description)
      ensures url == old(url) && version == old(version)
    {
      projectTags := NewProjectTags(value);
      TagIdsRoundTrip(value);
    }
  }
}
